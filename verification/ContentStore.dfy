/**
 * Size-bounded content store with modelled retention eviction (src/store_evict.rs).
 *
 * A map, a queue of keys in age order and a byte counter are kept together.  The
 * specification is a `Ledger`: the counter and the list of frames, oldest first.
 */
module ContentStore {
  import opened Wrappers
  import opened Machine
  import opened Sequences
  import opened Ordered

  /** A store key, represented by its position in the total order of symbols. */
  type StoreKey = int

  /** A session symbol; only its identity matters. */
  type Session = string

  /** One sample-by-reference frame. */
  datatype ContentFrame = ContentFrame(
    key: StoreKey,
    session: Session,
    receiptSeq: u64,
    insertedTick: u64,
    sizeBytes: usize,
    value: string)

  /** How long frames of one session and receipt may be kept. */
  datatype RetentionWindow = RetentionWindow(session: Session, receiptSeq: u64, retainMs: u64)

  datatype EvictReason = SizeBound | Retention | Replaced

  datatype StoreEvicted = StoreEvicted(key: StoreKey, reason: EvictReason)

  datatype StoreError = ZeroBound | FrameTooLarge

  // ---------------------------------------------------------------- specification

  /** The byte counter and the stored frames, oldest first. */
  datatype Ledger = Ledger(used: nat, frames: seq<ContentFrame>)

  function SizeOf(): ContentFrame -> nat {
    (f: ContentFrame) => f.sizeBytes
  }

  function HasKey(key: StoreKey): ContentFrame -> bool {
    (f: ContentFrame) => f.key == key
  }

  function LacksKey(key: StoreKey): ContentFrame -> bool {
    (f: ContentFrame) => f.key != key
  }

  function NotKey(key: StoreKey): StoreKey -> bool {
    (k: StoreKey) => k != key
  }

  function KeyOrder(): StoreKey -> int {
    (k: StoreKey) => k
  }

  ghost function Evictions(frames: seq<ContentFrame>, reason: EvictReason): seq<StoreEvicted> {
    seq(|frames|, i requires 0 <= i < |frames| => StoreEvicted(frames[i].key, reason))
  }

  /** The frames given up, those kept, and the counter, once a newcomer has been made room for. */
  datatype Room = Room(dropped: seq<ContentFrame>, kept: seq<ContentFrame>, used: nat)

  /** Drops oldest frames while the counter says the newcomer does not fit. */
  ghost function MakeRoom(max: nat, l: Ledger, size: nat): Room
    decreases |l.frames|
  {
    if SaturatingAdd(l.used, size, USIZE_MAX) <= max || l.frames == [] then Room([], l.frames, l.used)
    else
      var r := MakeRoom(max, DropOldest(l), size);
      r.(dropped := [l.frames[0]] + r.dropped)
  }

  ghost function DropOldest(l: Ledger): Ledger
    requires l.frames != []
  {
    Ledger(SaturatingSub(l.used, l.frames[0].sizeBytes), l.frames[1..])
  }

  /** The frames with a given key: none or one. */
  ghost function Matching(l: Ledger, key: StoreKey): seq<ContentFrame> {
    Filter(l.frames, HasKey(key))
  }

  ghost function Forget(l: Ledger, key: StoreKey): Ledger {
    Ledger(SaturatingSub(l.used, Total(SizeOf(), Matching(l, key))), Filter(l.frames, LacksKey(key)))
  }

  /** One insertion: the ledger it leaves and its answer. */
  ghost function InsertStep(max: nat, l: Ledger, frame: ContentFrame)
    : (Ledger, Result<seq<StoreEvicted>, StoreError>)
  {
    if frame.sizeBytes > max then (l, Err(FrameTooLarge))
    else
      var room := MakeRoom(max, Forget(l, frame.key), frame.sizeBytes);
      (Ledger(SaturatingAdd(room.used, frame.sizeBytes, USIZE_MAX), room.kept + [frame]),
       Ok(Evictions(Matching(l, frame.key), Replaced) + Evictions(room.dropped, SizeBound)))
  }

  /** Elapsed milliseconds between two ticks, saturating like 64-bit arithmetic. */
  function ElapsedMs(nowTick: u64, thenTick: u64, adaptHz: u16): nat {
    SaturatingMul(SaturatingSub(nowTick, thenTick), 1000, U64_MAX) / (if adaptHz > 1 then adaptHz else 1)
  }

  /** The first window that names the frame's session and receipt. */
  function WindowFor(frame: ContentFrame, windows: seq<RetentionWindow>): Option<RetentionWindow> {
    if windows == [] then None
    else if windows[0].session == frame.session && windows[0].receiptSeq == frame.receiptSeq then Some(windows[0])
    else WindowFor(frame, windows[1..])
  }

  /** Is the frame uncovered by any window, or older than the one that covers it? */
  predicate Expired(frame: ContentFrame, nowTick: u64, adaptHz: u16, windows: seq<RetentionWindow>) {
    var window := WindowFor(frame, windows);
    window.None? || ElapsedMs(nowTick, frame.insertedTick, adaptHz) > window.value.retainMs
  }

  ghost function Expiring(nowTick: u64, adaptHz: u16, windows: seq<RetentionWindow>): ContentFrame -> bool {
    (f: ContentFrame) => Expired(f, nowTick, adaptHz, windows)
  }

  ghost function Retained(nowTick: u64, adaptHz: u16, windows: seq<RetentionWindow>): ContentFrame -> bool {
    (f: ContentFrame) => !Expired(f, nowTick, adaptHz, windows)
  }

  ghost function KeysOf(frames: seq<ContentFrame>): set<StoreKey> {
    set f | f in frames :: f.key
  }

  ghost function KeyEvictions(keys: seq<StoreKey>): seq<StoreEvicted> {
    seq(|keys|, i requires 0 <= i < |keys| => StoreEvicted(keys[i], Retention))
  }

  /** One retention sweep: the ledger it leaves and the removals, in key order. */
  ghost function SweepStep(l: Ledger, nowTick: u64, adaptHz: u16, windows: seq<RetentionWindow>)
    : (Ledger, seq<StoreEvicted>)
  {
    var expired := Filter(l.frames, Expiring(nowTick, adaptHz, windows));
    (Ledger(SaturatingSub(l.used, Total(SizeOf(), expired)), Filter(l.frames, Retained(nowTick, adaptHz, windows))),
     KeyEvictions(Listing(KeyOrder(), KeysOf(expired))))
  }

  // ---------------------------------------------------------------- map and queue as one list

  ghost predicate Stored(entries: map<StoreKey, ContentFrame>, order: seq<StoreKey>) {
    forall i :: 0 <= i < |order| ==> order[i] in entries
  }

  /** Is `order` a duplicate-free listing of exactly the keys of `entries`, each stored under its own key? */
  ghost predicate Listed(entries: map<StoreKey, ContentFrame>, order: seq<StoreKey>) {
    && Distinct(order)
    && Stored(entries, order)
    && (forall k :: k in entries ==> k in order && entries[k].key == k)
  }

  ghost function Frames(entries: map<StoreKey, ContentFrame>, order: seq<StoreKey>): (frames: seq<ContentFrame>)
    requires Stored(entries, order)
    ensures |frames| == |order| && forall i :: 0 <= i < |order| ==> frames[i] == entries[order[i]]
  {
    if order == [] then [] else [entries[order[0]]] + Frames(entries, order[1..])
  }

  /** Filtering the queue by key filters the frames alike. */
  lemma {:induction false} FramesFilter(
    entries: map<StoreKey, ContentFrame>, fewer: map<StoreKey, ContentFrame>, order: seq<StoreKey>,
    p: StoreKey -> bool, q: ContentFrame -> bool)
    requires Stored(entries, order)
    requires forall i :: 0 <= i < |order| ==> p(order[i]) == q(entries[order[i]])
    requires forall i :: 0 <= i < |order| && p(order[i]) ==> order[i] in fewer && fewer[order[i]] == entries[order[i]]
    ensures Stored(fewer, Filter(order, p))
    ensures Frames(fewer, Filter(order, p)) == Filter(Frames(entries, order), q)
  {
    if order != [] {
      FramesFilter(entries, fewer, order[1..], p, q);
      assert Frames(entries, order)[1..] == Frames(entries, order[1..]);
      if p(order[0]) {
        assert Filter(order, p)[1..] == Filter(order[1..], p);
      }
    }
  }

  lemma {:induction false} FilterKeepsDistinct(order: seq<StoreKey>, p: StoreKey -> bool)
    requires Distinct(order)
    ensures Distinct(Filter(order, p))
  {
    if order != [] {
      FilterKeepsDistinct(order[1..], p);
      FilterMembers(order[1..], p);
      var rest := Filter(order[1..], p);
      if p(order[0]) {
        forall j | 0 <= j < |rest|
          ensures order[0] != rest[j]
        {
          assert rest[j] in rest && rest[j] in order[1..];
          var k :| 0 <= k < |order[1..]| && order[1..][k] == rest[j];
          assert order[k + 1] == rest[j];
        }
      }
    }
  }

  lemma ListedFilter(entries: map<StoreKey, ContentFrame>, order: seq<StoreKey>, gone: set<StoreKey>, p: StoreKey -> bool)
    requires Listed(entries, order)
    requires forall k :: k in order ==> p(k) == (k !in gone)
    ensures Listed(entries - gone, Filter(order, p))
  {
    FilterKeepsDistinct(order, p);
    FilterMembers(order, p);
    var kept := Filter(order, p);
    forall i | 0 <= i < |kept|
      ensures kept[i] in entries - gone
    {
      assert kept[i] in kept && p(kept[i]);
      var j :| 0 <= j < |order| && order[j] == kept[i];
    }
  }

  // ---------------------------------------------------------------- removing one key

  /** What forgetting one key does to the map, the queue and the counter, in ledger terms. */
  lemma RemovalIsForget(used: nat, entries: map<StoreKey, ContentFrame>, order: seq<StoreKey>, key: StoreKey)
    requires Listed(entries, order) && key in entries
    ensures Listed(entries - {key}, Filter(order, NotKey(key)))
    ensures Ledger(SaturatingSub(used, entries[key].sizeBytes), Frames(entries - {key}, Filter(order, NotKey(key))))
         == Forget(Ledger(used, Frames(entries, order)), key)
    ensures Matching(Ledger(used, Frames(entries, order)), key) == [entries[key]]
  {
    ListedFilter(entries, order, {key}, NotKey(key));
    FramesFilter(entries, entries - {key}, order, NotKey(key), LacksKey(key));
    MatchingOne(entries, order, key);
    TotalOne(SizeOf(), entries[key]);
  }

  lemma {:induction false} MatchingOne(entries: map<StoreKey, ContentFrame>, order: seq<StoreKey>, key: StoreKey)
    requires Distinct(order) && Stored(entries, order) && key in order
    requires forall i :: 0 <= i < |order| ==> entries[order[i]].key == order[i]
    ensures Filter(Frames(entries, order), HasKey(key)) == [entries[key]]
  {
    assert order == [order[0]] + order[1..];
    assert Frames(entries, order)[1..] == Frames(entries, order[1..]);
    if order[0] == key {
      FilterNone(Frames(entries, order[1..]), HasKey(key));
    } else {
      MatchingOne(entries, order[1..], key);
    }
  }

  lemma AbsentIsForget(used: nat, entries: map<StoreKey, ContentFrame>, order: seq<StoreKey>, key: StoreKey)
    requires Listed(entries, order) && key !in entries
    ensures Forget(Ledger(used, Frames(entries, order)), key) == Ledger(used, Frames(entries, order))
    ensures Matching(Ledger(used, Frames(entries, order)), key) == []
  {
    var frames := Frames(entries, order);
    forall i | 0 <= i < |frames|
      ensures frames[i].key != key
    {
      assert order[i] in entries && frames[i].key == order[i];
    }
    FilterNone(frames, HasKey(key));
    FilterAll(frames, LacksKey(key));
  }

  lemma {:induction false} FramesAgree(
    entries: map<StoreKey, ContentFrame>, fewer: map<StoreKey, ContentFrame>, order: seq<StoreKey>)
    requires Stored(entries, order) && Stored(fewer, order)
    requires forall i :: 0 <= i < |order| ==> fewer[order[i]] == entries[order[i]]
    ensures Frames(fewer, order) == Frames(entries, order)
  {
    if order != [] {
      FramesAgree(entries, fewer, order[1..]);
    }
  }

  lemma ListedTail(entries: map<StoreKey, ContentFrame>, order: seq<StoreKey>)
    requires Listed(entries, order) && order != []
    ensures Listed(entries - {order[0]}, order[1..])
  {
    var rest := order[1..];
    assert order == [order[0]] + rest;
    forall k | k in entries - {order[0]}
      ensures k in rest && entries[k].key == k
    {
      assert k in order;
    }
    forall i | 0 <= i < |rest|
      ensures rest[i] in entries - {order[0]}
    {
      assert order[i + 1] == rest[i] && order[i + 1] in entries;
    }
  }

  /** Removing the front of the queue is dropping the oldest frame. */
  lemma RemovalOfOldest(used: nat, entries: map<StoreKey, ContentFrame>, order: seq<StoreKey>)
    requires Listed(entries, order) && order != []
    ensures Filter(order[1..], NotKey(order[0])) == order[1..]
    ensures Listed(entries - {order[0]}, order[1..])
    ensures Ledger(SaturatingSub(used, entries[order[0]].sizeBytes), Frames(entries - {order[0]}, order[1..]))
         == DropOldest(Ledger(used, Frames(entries, order)))
  {
    FilterAll(order[1..], NotKey(order[0]));
    ListedTail(entries, order);
    FramesAgree(entries, entries - {order[0]}, order[1..]);
    assert Frames(entries, order)[1..] == Frames(entries, order[1..]);
  }

  lemma ListedNewest(entries: map<StoreKey, ContentFrame>, order: seq<StoreKey>, frame: ContentFrame)
    requires Listed(entries, order) && frame.key !in entries
    ensures Listed(entries[frame.key := frame], order + [frame.key])
    ensures Frames(entries[frame.key := frame], order + [frame.key]) == Frames(entries, order) + [frame]
  {
    var more := entries[frame.key := frame];
    var longer := order + [frame.key];
    forall k | k in more
      ensures k in longer && more[k].key == k
    {
      assert k in entries ==> k in order;
      assert longer[|order|] == frame.key;
    }
    forall i | 0 <= i < |order|
      ensures order[i] in entries && order[i] != frame.key
    {
    }
    assert Frames(more, longer) == Frames(entries, order) + [frame];
  }

  // ---------------------------------------------------------------- removing several keys

  function ExpiredIn(
    entries: map<StoreKey, ContentFrame>, nowTick: u64, adaptHz: u16, windows: seq<RetentionWindow>)
    : StoreKey -> bool
  {
    (k: StoreKey) => k in entries && Expired(entries[k], nowTick, adaptHz, windows)
  }

  ghost function KeySize(entries: map<StoreKey, ContentFrame>): StoreKey -> nat {
    (k: StoreKey) => if k in entries then entries[k].sizeBytes else 0
  }

  ghost function NotAmong(gone: seq<StoreKey>): StoreKey -> bool {
    (k: StoreKey) => k !in gone
  }

  ghost function Members(keys: seq<StoreKey>): set<StoreKey> {
    set k | k in keys
  }

  /** Map, queue and counter after the keys `gone` have been removed one by one. */
  ghost predicate Swept(
    entries0: map<StoreKey, ContentFrame>, order0: seq<StoreKey>, used0: nat, gone: seq<StoreKey>,
    entries: map<StoreKey, ContentFrame>, order: seq<StoreKey>, used: nat)
  {
    && entries == entries0 - Members(gone)
    && order == Filter(order0, NotAmong(gone))
    && used == SaturatingSub(used0, Total(KeySize(entries0), gone))
  }

  lemma SweptStart(entries: map<StoreKey, ContentFrame>, order: seq<StoreKey>, used: nat)
    ensures Swept(entries, order, used, [], entries, order, used)
  {
    FilterAll(order, NotAmong([]));
    assert Members([]) == {};
  }

  lemma StillStored(entries: map<StoreKey, ContentFrame>, keys: seq<StoreKey>, i: nat)
    requires Distinct(keys) && i < |keys| && keys[i] in entries
    ensures keys[i] in entries - Members(keys[..i])
  {
  }

  lemma SweptNext(
    entries0: map<StoreKey, ContentFrame>, order0: seq<StoreKey>, used0: nat, gone: seq<StoreKey>, key: StoreKey)
    requires key in entries0
    ensures var entries, order := entries0 - Members(gone), Filter(order0, NotAmong(gone));
            var used := SaturatingSub(used0, Total(KeySize(entries0), gone));
            Swept(entries0, order0, used0, gone + [key],
                  entries - {key}, Filter(order, NotKey(key)), SaturatingSub(used, entries0[key].sizeBytes))
  {
    FilterBoth(order0, NotAmong(gone), NotKey(key), NotAmong(gone + [key]));
    TotalConcat(KeySize(entries0), gone, [key]);
    TotalOne(KeySize(entries0), key);
    assert Members(gone + [key]) == Members(gone) + {key};
  }

  lemma AscendingIsDistinct(keys: seq<StoreKey>)
    requires Ascending(KeyOrder(), keys)
    ensures Distinct(keys)
  {
    assert forall i, j :: 0 <= i < j < |keys| ==> KeyOrder()(keys[i]) < KeyOrder()(keys[j]);
  }

  lemma {:induction false} KeyTotals(entries: map<StoreKey, ContentFrame>, keys: seq<StoreKey>)
    requires Stored(entries, keys)
    ensures Total(KeySize(entries), keys) == Total(SizeOf(), Frames(entries, keys))
  {
    if keys != [] {
      KeyTotals(entries, keys[1..]);
      assert Frames(entries, keys)[1..] == Frames(entries, keys[1..]);
    }
  }

  /** The expired keys in key order are a permutation of those in age order. */
  lemma ExpiredListing(
    entries: map<StoreKey, ContentFrame>, order: seq<StoreKey>,
    nowTick: u64, adaptHz: u16, windows: seq<RetentionWindow>)
    requires Listed(entries, order)
    ensures var p := ExpiredIn(entries, nowTick, adaptHz, windows);
            var expired := Filter(Listing(KeyOrder(), entries.Keys), p);
            && Distinct(expired) && Stored(entries, expired)
            && multiset(expired) == multiset(Filter(order, p))
            && Ascending(KeyOrder(), expired)
            && (forall k :: k in expired ==> p(k)) && (forall k :: k in entries && p(k) ==> k in expired)
  {
    var p := ExpiredIn(entries, nowTick, adaptHz, windows);
    var keys := Listing(KeyOrder(), entries.Keys);
    var expired := Filter(keys, p);
    ListingIsAscending(KeyOrder(), entries.Keys);
    FilterAscending(KeyOrder(), keys, p);
    FilterMembers(keys, p);
    FilterMembers(order, p);
    AscendingIsDistinct(expired);
    FilterKeepsDistinct(order, p);
    forall i | 0 <= i < |expired|
      ensures expired[i] in entries
    {
      assert expired[i] in expired;
    }
    forall k | k in Filter(order, p)
      ensures k in expired
    {
      assert p(k);
    }
    DistinctPermuted(expired, Filter(order, p));
  }

  /** Once every expired key is removed, the store is the swept ledger. */
  lemma SweptEnd(
    entries0: map<StoreKey, ContentFrame>, order0: seq<StoreKey>, used0: nat,
    nowTick: u64, adaptHz: u16, windows: seq<RetentionWindow>, expired: seq<StoreKey>)
    requires Listed(entries0, order0)
    requires expired == Filter(Listing(KeyOrder(), entries0.Keys), ExpiredIn(entries0, nowTick, adaptHz, windows))
    ensures var entries, order := entries0 - Members(expired), Filter(order0, NotAmong(expired));
            var used := SaturatingSub(used0, Total(KeySize(entries0), expired));
            && Listed(entries, order)
            && (Ledger(used, Frames(entries, order)), KeyEvictions(expired))
                 == SweepStep(Ledger(used0, Frames(entries0, order0)), nowTick, adaptHz, windows)
  {
    var p := ExpiredIn(entries0, nowTick, adaptHz, windows);
    var frames := Frames(entries0, order0);
    ExpiredListing(entries0, order0, nowTick, adaptHz, windows);
    ListedFilter(entries0, order0, Members(expired), NotAmong(expired));
    FramesFilter(entries0, entries0 - Members(expired), order0, NotAmong(expired), Retained(nowTick, adaptHz, windows));
    FramesFilter(entries0, entries0, order0, p, Expiring(nowTick, adaptHz, windows));
    KeyTotals(entries0, Filter(order0, p));
    TotalPermuted(KeySize(entries0), expired, Filter(order0, p));
    ExpiredKeys(entries0, order0, nowTick, adaptHz, windows, expired);
  }

  /** A key belongs to an expired frame iff it is stored with an expired frame. */
  lemma ExpiredFrameKeys(
    entries: map<StoreKey, ContentFrame>, order: seq<StoreKey>,
    nowTick: u64, adaptHz: u16, windows: seq<RetentionWindow>, k: StoreKey)
    requires Listed(entries, order)
    ensures k in KeysOf(Filter(Frames(entries, order), Expiring(nowTick, adaptHz, windows)))
            <==> ExpiredIn(entries, nowTick, adaptHz, windows)(k)
  {
    var frames := Frames(entries, order);
    var q := Expiring(nowTick, adaptHz, windows);
    FilterMembers(frames, q);
    if ExpiredIn(entries, nowTick, adaptHz, windows)(k) {
      assert k in order;
      var i :| 0 <= i < |order| && order[i] == k;
      assert frames[i] in frames && frames[i].key == k && q(frames[i]);
    }
    if k in KeysOf(Filter(frames, q)) {
      var f :| f in Filter(frames, q) && f.key == k;
      var i :| 0 <= i < |frames| && frames[i] == f;
      assert order[i] in entries && order[i] == k;
    }
  }

  /** The removed keys, in key order, are the listing of the expired frames' keys. */
  lemma ExpiredKeys(
    entries: map<StoreKey, ContentFrame>, order: seq<StoreKey>,
    nowTick: u64, adaptHz: u16, windows: seq<RetentionWindow>, expired: seq<StoreKey>)
    requires Listed(entries, order)
    requires expired == Filter(Listing(KeyOrder(), entries.Keys), ExpiredIn(entries, nowTick, adaptHz, windows))
    ensures expired == Listing(KeyOrder(), KeysOf(Filter(Frames(entries, order), Expiring(nowTick, adaptHz, windows))))
  {
    var keys := KeysOf(Filter(Frames(entries, order), Expiring(nowTick, adaptHz, windows)));
    ExpiredListing(entries, order, nowTick, adaptHz, windows);
    ListingIsAscending(KeyOrder(), keys);
    forall k
      ensures k in keys <==> ExpiredIn(entries, nowTick, adaptHz, windows)(k)
    {
      ExpiredFrameKeys(entries, order, nowTick, adaptHz, windows, k);
    }
    AscendingIsUnique(KeyOrder(), expired, Listing(KeyOrder(), keys));
  }

  // ---------------------------------------------------------------- the store

  /** Position of the first queued key that is stored, or the queue's length. */
  ghost function FirstStored(entries: map<StoreKey, ContentFrame>, order: seq<StoreKey>): (n: nat)
    ensures n <= |order| && (n < |order| ==> order[n] in entries)
  {
    if order == [] || order[0] in entries then 0 else 1 + FirstStored(entries, order[1..])
  }

  /** Making room from `start` has dropped `dropped` so far and arrived at `now`. */
  ghost predicate RoomInProgress(max: nat, start: Ledger, size: nat, dropped: seq<ContentFrame>, now: Ledger) {
    var rest := MakeRoom(max, now, size);
    MakeRoom(max, start, size) == Room(dropped + rest.dropped, rest.kept, rest.used)
  }

  lemma RoomAfterDrop(max: nat, start: Ledger, size: nat, dropped: seq<ContentFrame>, now: Ledger)
    requires RoomInProgress(max, start, size, dropped, now)
    requires SaturatingAdd(now.used, size, USIZE_MAX) > max && now.frames != []
    ensures RoomInProgress(max, start, size, dropped + [now.frames[0]], DropOldest(now))
  {
    var rest := MakeRoom(max, DropOldest(now), size);
    assert dropped + ([now.frames[0]] + rest.dropped) == dropped + [now.frames[0]] + rest.dropped;
  }

  lemma EvictionsAppend(frames: seq<ContentFrame>, frame: ContentFrame, reason: EvictReason)
    ensures Evictions(frames + [frame], reason) == Evictions(frames, reason) + [StoreEvicted(frame.key, reason)]
  {
  }

  class BoundedContentStore {
    const maxBytes: usize
    var usedBytes: usize
    var entries: map<StoreKey, ContentFrame>
    var order: seq<StoreKey>

    ghost predicate Valid()
      reads this
    {
      Listed(entries, order)
    }

    ghost function View(): Ledger
      reads this
      requires Valid()
    {
      Ledger(usedBytes, Frames(entries, order))
    }

    constructor WithBound(maxBytes: usize)
      requires maxBytes > 0
      ensures Valid() && View() == Ledger(0, []) && this.maxBytes == maxBytes
    {
      this.maxBytes := maxBytes;
      usedBytes := 0;
      entries := map[];
      order := [];
    }

    /** Builds an empty store, refusing a zero bound. */
    static method New(maxBytes: usize) returns (r: Result<BoundedContentStore, StoreError>)
      ensures if maxBytes == 0 then r == Err(ZeroBound)
              else r.Ok? && fresh(r.value) && r.value.Valid() && r.value.maxBytes == maxBytes
                   && r.value.View() == Ledger(0, [])
    {
      if maxBytes == 0 {
        return Err(ZeroBound);
      }
      var store := new BoundedContentStore.WithBound(maxBytes);
      return Ok(store);
    }

    /** Takes one key out of map, queue and counter. */
    method RemoveExisting(key: StoreKey) returns (r: Option<ContentFrame>)
      modifies this
      ensures r == if key in old(entries) then Some(old(entries)[key]) else None
      ensures if key in old(entries)
              then entries == old(entries) - {key} && order == Filter(old(order), NotKey(key))
                   && usedBytes == SaturatingSub(old(usedBytes), old(entries)[key].sizeBytes)
              else entries == old(entries) && order == old(order) && usedBytes == old(usedBytes)
    {
      if key !in entries {
        return None;
      }
      var frame := entries[key];
      entries := entries - {key};
      usedBytes := SaturatingSub(usedBytes, frame.sizeBytes);
      order := Filter(order, NotKey(key));
      return Some(frame);
    }

    /** Removes the oldest stored frame, passing over queued keys that are not stored. */
    method EvictOldest(reason: EvictReason) returns (r: Option<StoreEvicted>)
      modifies this
      ensures var n := FirstStored(old(entries), old(order));
              if n == |old(order)|
              then r == None && order == [] && entries == old(entries) && usedBytes == old(usedBytes)
              else r == Some(StoreEvicted(old(order)[n], reason))
                   && entries == old(entries) - {old(order)[n]}
                   && order == Filter(old(order)[n + 1..], NotKey(old(order)[n]))
                   && usedBytes == SaturatingSub(old(usedBytes), old(entries)[old(order)[n]].sizeBytes)
    {
      ghost var popped := 0;
      while order != []
        invariant popped <= |old(order)| && order == old(order)[popped..]
        invariant popped + FirstStored(entries, order) == FirstStored(old(entries), old(order))
        invariant entries == old(entries) && usedBytes == old(usedBytes)
        decreases |order|
      {
        var key := order[0];
        order := order[1..];
        popped := popped + 1;
        var removed := RemoveExisting(key);
        if removed.Some? {
          return Some(StoreEvicted(key, reason));
        }
      }
      return None;
    }

    /** Evicting from a consistent store drops its oldest frame, if there is one. */
    method EvictFrame(reason: EvictReason) returns (r: Option<StoreEvicted>)
      requires Valid()
      modifies this
      ensures Valid() && entries.Keys <= old(entries).Keys
      ensures if old(View()).frames == [] then r == None && View() == old(View())
              else r == Some(StoreEvicted(old(View()).frames[0].key, reason)) && View() == DropOldest(old(View()))
      ensures |order| == if r == None then |old(order)| else |old(order)| - 1
    {
      if order != [] {
        RemovalOfOldest(usedBytes, entries, order);
        assert order[0] in entries && order[0] in order;
      }
      r := EvictOldest(reason);
    }

    /** Evicts oldest frames until the counter leaves room for `size` more bytes. */
    method EvictUntilFits(size: usize) returns (evicted: seq<StoreEvicted>)
      requires Valid()
      modifies this
      ensures Valid() && entries.Keys <= old(entries).Keys
      ensures var room := MakeRoom(maxBytes, old(View()), size);
              View() == Ledger(room.used, room.kept) && evicted == Evictions(room.dropped, SizeBound)
    {
      evicted := [];
      ghost var dropped: seq<ContentFrame> := [];
      while SaturatingAdd(usedBytes, size, USIZE_MAX) > maxBytes
        invariant Valid() && entries.Keys <= old(entries).Keys
        invariant evicted == Evictions(dropped, SizeBound)
        invariant RoomInProgress(maxBytes, old(View()), size, dropped, View())
        decreases |order|
      {
        ghost var before := View();
        var item := EvictFrame(SizeBound);
        if item.None? {
          break;
        }
        EvictionsAppend(dropped, before.frames[0], SizeBound);
        RoomAfterDrop(maxBytes, old(View()), size, dropped, before);
        evicted := evicted + [item.value];
        dropped := dropped + [before.frames[0]];
      }
    }

    /** Replaces, makes room, and appends the newcomer. */
    method Insert(frame: ContentFrame) returns (r: Result<seq<StoreEvicted>, StoreError>)
      requires Valid()
      modifies this
      ensures Valid()
      ensures (View(), r) == InsertStep(maxBytes, old(View()), frame)
    {
      if frame.sizeBytes > maxBytes {
        return Err(FrameTooLarge);
      }
      var evicted := Replace(frame.key);
      var dropped := EvictUntilFits(frame.sizeBytes);
      ListedNewest(entries, order, frame);
      usedBytes := SaturatingAdd(usedBytes, frame.sizeBytes, USIZE_MAX);
      order := order + [frame.key];
      entries := entries[frame.key := frame];
      return Ok(evicted + dropped);
    }

    /** Removes a frame about to be replaced, reporting it. */
    method Replace(key: StoreKey) returns (evicted: seq<StoreEvicted>)
      requires Valid()
      modifies this
      ensures Valid() && key !in entries
      ensures View() == Forget(old(View()), key)
      ensures evicted == Evictions(Matching(old(View()), key), Replaced)
    {
      evicted := [];
      if key in entries {
        RemovalIsForget(usedBytes, entries, order, key);
      } else {
        AbsentIsForget(usedBytes, entries, order, key);
      }
      var removed := RemoveExisting(key);
      if removed.Some? {
        evicted := [StoreEvicted(key, Replaced)];
      }
    }

    /** Removes the given keys one by one, reporting those that were stored. */
    method RemoveAll(expired: seq<StoreKey>) returns (removed: seq<StoreEvicted>)
      requires Distinct(expired) && Stored(entries, expired)
      modifies this
      ensures Swept(old(entries), old(order), old(usedBytes), expired, entries, order, usedBytes)
      ensures removed == KeyEvictions(expired)
    {
      removed := [];
      SweptStart(entries, order, usedBytes);
      for i := 0 to |expired|
        invariant Swept(old(entries), old(order), old(usedBytes), expired[..i], entries, order, usedBytes)
        invariant removed == KeyEvictions(expired[..i])
      {
        var key := expired[i];
        assert expired[..i + 1] == expired[..i] + [key];
        StillStored(old(entries), expired, i);
        SweptNext(old(entries), old(order), old(usedBytes), expired[..i], key);
        var frame := RemoveExisting(key);
        if frame.Some? {
          removed := removed + [StoreEvicted(key, Retention)];
        }
      }
      assert expired[..|expired|] == expired;
    }

    /** Takes out every expired frame, in key order. */
    method SweepRetention(nowTick: u64, adaptHz: u16, windows: seq<RetentionWindow>)
      returns (removed: seq<StoreEvicted>)
      requires Valid()
      modifies this
      ensures Valid()
      ensures (View(), removed) == SweepStep(old(View()), nowTick, adaptHz, windows)
    {
      var keys := List(KeyOrder(), entries.Keys);
      var expired := Filter(keys, ExpiredIn(entries, nowTick, adaptHz, windows));
      ExpiredListing(entries, order, nowTick, adaptHz, windows);
      SweptEnd(entries, order, usedBytes, nowTick, adaptHz, windows, expired);
      removed := RemoveAll(expired);
    }
  }
}

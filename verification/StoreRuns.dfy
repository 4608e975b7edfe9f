/**
 * What the content store guarantees of one insertion, of whole runs, and of
 * repeated retention sweeps (src/store_evict.rs:121-266).
 */
module StoreRuns {
  import opened Wrappers
  import opened Machine
  import opened Sequences
  import opened Ordered
  import opened ContentStore

  // ---------------------------------------------------------------- exact accounting

  ghost predicate DistinctKeys(frames: seq<ContentFrame>) {
    forall i, j :: 0 <= i < j < |frames| ==> frames[i].key != frames[j].key
  }

  /** Is the counter the exact sum of the stored sizes, within the bound, with one frame a key? */
  ghost predicate Accounted(max: usize, l: Ledger) {
    l.used == Total(SizeOf(), l.frames) <= max && DistinctKeys(l.frames)
  }

  /** The frames an insertion leaves out of account: those under other keys. */
  ghost function Others(l: Ledger, key: StoreKey): seq<ContentFrame> {
    Filter(l.frames, LacksKey(key))
  }

  /**
   * Can the counter represent what an insertion asks of it?  Always below the largest
   * bound; at that bound only while the sizes still add up without saturating.
   */
  ghost predicate Countable(max: usize, l: Ledger, frame: ContentFrame) {
    max < USIZE_MAX || Total(SizeOf(), Others(l, frame.key)) + frame.sizeBytes <= USIZE_MAX
  }

  /** Is `k` the length of the shortest prefix whose removal makes room for `size` more bytes? */
  ghost predicate IsShortestPrefix(frames: seq<ContentFrame>, k: nat, size: nat, max: nat) {
    && k <= |frames|
    && Total(SizeOf(), frames[k..]) + size <= max
    && forall j :: 0 <= j < k ==> Total(SizeOf(), frames[j..]) + size > max
  }

  lemma {:induction false} FilterKeepsDistinctKeys(frames: seq<ContentFrame>, p: ContentFrame -> bool)
    requires DistinctKeys(frames)
    ensures DistinctKeys(Filter(frames, p))
  {
    if frames != [] {
      FilterKeepsDistinctKeys(frames[1..], p);
      FilterMembers(frames[1..], p);
      var rest := Filter(frames[1..], p);
      if p(frames[0]) {
        forall j | 0 <= j < |rest|
          ensures frames[0].key != rest[j].key
        {
          assert rest[j] in rest && rest[j] in frames[1..];
          var k :| 0 <= k < |frames[1..]| && frames[1..][k] == rest[j];
          assert frames[k + 1] == rest[j];
        }
      }
    }
  }

  lemma ForgetIsExact(max: usize, l: Ledger, key: StoreKey)
    requires Accounted(max, l)
    ensures Forget(l, key).frames == Others(l, key)
    ensures Forget(l, key).used == Total(SizeOf(), Others(l, key)) <= max
    ensures DistinctKeys(Others(l, key)) && forall f :: f in Others(l, key) ==> f.key != key
  {
    FilterSplitsTotal(SizeOf(), l.frames, HasKey(key), LacksKey(key));
    FilterKeepsDistinctKeys(l.frames, LacksKey(key));
    FilterMembers(l.frames, LacksKey(key));
  }

  /** Making room drops the shortest sufficient prefix and never runs out of frames first. */
  lemma {:induction false} MakeRoomDropsShortest(max: usize, l: Ledger, size: nat)
    requires l.used == Total(SizeOf(), l.frames) && size <= max
    requires max < USIZE_MAX || l.used + size <= USIZE_MAX
    ensures var room := MakeRoom(max, l, size);
            var k := |room.dropped|;
            && IsShortestPrefix(l.frames, k, size, max)
            && room == Room(l.frames[..k], l.frames[k..], Total(SizeOf(), l.frames[k..]))
    decreases |l.frames|
  {
    assert l.frames[0..] == l.frames;
    if l.used + size > max {
      var next := DropOldest(l);
      MakeRoomDropsShortest(max, next, size);
      PrefixOneLonger(l.frames, |MakeRoom(max, next, size).dropped|, size, max);
    }
  }

  /** When the whole list leaves too little room, the shortest prefix of its tail is one short of its own. */
  lemma PrefixOneLonger(frames: seq<ContentFrame>, k: nat, size: nat, max: nat)
    requires frames != [] && IsShortestPrefix(frames[1..], k, size, max)
    requires Total(SizeOf(), frames) + size > max
    ensures IsShortestPrefix(frames, k + 1, size, max)
    ensures frames[1..][k..] == frames[k + 1..]
    ensures [frames[0]] + frames[1..][..k] == frames[..k + 1]
  {
    assert frames[0..] == frames;
    forall j | 0 <= j < k + 1
      ensures Total(SizeOf(), frames[j..]) + size > max
    {
      if j > 0 {
        assert frames[j..] == frames[1..][j - 1..];
      }
    }
  }

  /**
   * Insertion refines the plain sequence of frames: any frame with the same key goes,
   * then the shortest prefix of oldest frames that makes room, and the newcomer is
   * last.  The answer lists the replaced key, then that prefix in order.  A frame
   * larger than the bound is refused and changes nothing.
   */
  lemma InsertRefinesSequence(max: usize, l: Ledger, frame: ContentFrame)
    requires Accounted(max, l) && Countable(max, l, frame)
    ensures frame.sizeBytes > max ==> InsertStep(max, l, frame) == (l, Err(FrameTooLarge))
    ensures frame.sizeBytes <= max ==>
              var others := Others(l, frame.key);
              exists k: nat :: IsShortestPrefix(others, k, frame.sizeBytes, max)
                && InsertStep(max, l, frame) ==
                   (Ledger(Total(SizeOf(), others[k..] + [frame]), others[k..] + [frame]),
                    Ok(Evictions(Matching(l, frame.key), Replaced) + Evictions(others[..k], SizeBound)))
    ensures |Matching(l, frame.key)| <= 1
  {
    AtMostOneMatch(l.frames, frame.key);
    if frame.sizeBytes <= max {
      AcceptedInsert(max, l, frame);
    }
  }

  lemma AcceptedInsert(max: usize, l: Ledger, frame: ContentFrame)
    requires Accounted(max, l) && Countable(max, l, frame) && frame.sizeBytes <= max
    ensures var others := Others(l, frame.key);
            exists k: nat :: IsShortestPrefix(others, k, frame.sizeBytes, max)
              && InsertStep(max, l, frame) ==
                 (Ledger(Total(SizeOf(), others[k..] + [frame]), others[k..] + [frame]),
                  Ok(Evictions(Matching(l, frame.key), Replaced) + Evictions(others[..k], SizeBound)))
  {
    var others := Others(l, frame.key);
    ForgetIsExact(max, l, frame.key);
    MakeRoomDropsShortest(max, Forget(l, frame.key), frame.sizeBytes);
    var k := |MakeRoom(max, Forget(l, frame.key), frame.sizeBytes).dropped|;
    InsertAfterRoom(max, l, frame, k);
  }

  lemma InsertAfterRoom(max: usize, l: Ledger, frame: ContentFrame, k: nat)
    requires frame.sizeBytes <= max && k <= |Others(l, frame.key)|
    requires var others := Others(l, frame.key);
             && Total(SizeOf(), others[k..]) + frame.sizeBytes <= max
             && MakeRoom(max, Forget(l, frame.key), frame.sizeBytes)
                  == Room(others[..k], others[k..], Total(SizeOf(), others[k..]))
    ensures var others := Others(l, frame.key);
            InsertStep(max, l, frame) ==
            (Ledger(Total(SizeOf(), others[k..] + [frame]), others[k..] + [frame]),
             Ok(Evictions(Matching(l, frame.key), Replaced) + Evictions(others[..k], SizeBound)))
  {
    TotalConcat(SizeOf(), Others(l, frame.key)[k..], [frame]);
    TotalOne(SizeOf(), frame);
  }

  /**
   * The answer to an accepted insertion, entry by entry: the newcomer's own key as replaced
   * if a frame had it, then the keys of the shortest sufficient prefix of the other
   * frames, oldest first, as given up for the size bound.
   */
  lemma InsertReports(max: usize, l: Ledger, frame: ContentFrame)
    requires Accounted(max, l) && Countable(max, l, frame) && frame.sizeBytes <= max
    ensures var others, report := Others(l, frame.key), InsertStep(max, l, frame).1.value;
            var r := if exists f :: f in l.frames && f.key == frame.key then 1 else 0;
            && |report| >= r && IsShortestPrefix(others, |report| - r, frame.sizeBytes, max)
            && (r == 1 ==> report[0] == StoreEvicted(frame.key, Replaced))
            && forall i :: r <= i < |report| ==> report[i] == StoreEvicted(others[i - r].key, SizeBound)
  {
    AcceptedInsert(max, l, frame);
    MatchingIsReplaced(l, frame.key);
  }

  lemma MatchingIsReplaced(l: Ledger, key: StoreKey)
    requires DistinctKeys(l.frames)
    ensures Evictions(Matching(l, key), Replaced)
         == if exists f :: f in l.frames && f.key == key then [StoreEvicted(key, Replaced)] else []
  {
    AtMostOneMatch(l.frames, key);
    FilterMembers(l.frames, HasKey(key));
    var matching := Matching(l, key);
    assert matching != [] ==> matching[0] in matching;
    assert forall f :: f in l.frames && f.key == key ==> HasKey(key)(f);
  }

  lemma {:induction false} AtMostOneMatch(frames: seq<ContentFrame>, key: StoreKey)
    requires DistinctKeys(frames)
    ensures |Filter(frames, HasKey(key))| <= 1
  {
    if frames != [] {
      if frames[0].key == key {
        FilterNone(frames[1..], HasKey(key));
      } else {
        AtMostOneMatch(frames[1..], key);
      }
    }
  }

  lemma InsertKeepsDistinctKeys(max: usize, l: Ledger, frame: ContentFrame, k: nat)
    requires Accounted(max, l) && k <= |Others(l, frame.key)|
    ensures DistinctKeys(Others(l, frame.key)[k..] + [frame])
  {
    ForgetIsExact(max, l, frame.key);
    var others := Others(l, frame.key);
    forall i | 0 <= i < |others|
      ensures others[i].key != frame.key
    {
      assert others[i] in others;
    }
  }

  lemma CountableInsertKeepsAccounts(max: usize, l: Ledger, frame: ContentFrame)
    requires Accounted(max, l) && frame.sizeBytes <= max && Countable(max, l, frame)
    ensures Accounted(max, InsertStep(max, l, frame).0)
  {
    var others := Others(l, frame.key);
    ForgetIsExact(max, l, frame.key);
    MakeRoomDropsShortest(max, Forget(l, frame.key), frame.sizeBytes);
    var k := |MakeRoom(max, Forget(l, frame.key), frame.sizeBytes).dropped|;
    TotalOne(SizeOf(), frame);
    TotalConcat(SizeOf(), others[k..], [frame]);
    InsertKeepsDistinctKeys(max, l, frame, k);
  }

  lemma UncountableInsert(max: usize, l: Ledger, frame: ContentFrame)
    requires Accounted(max, l) && frame.sizeBytes <= max && !Countable(max, l, frame)
    ensures var after := InsertStep(max, l, frame).0;
            after == Ledger(USIZE_MAX, Others(l, frame.key) + [frame])
            && Total(SizeOf(), after.frames) > USIZE_MAX
  {
    var others := Others(l, frame.key);
    ForgetIsExact(max, l, frame.key);
    TotalOne(SizeOf(), frame);
    TotalConcat(SizeOf(), others, [frame]);
    assert MakeRoom(max, Forget(l, frame.key), frame.sizeBytes) == Room([], others, Forget(l, frame.key).used);
  }

  /**
   * An accepted insertion keeps the accounts exact iff the counter can represent the
   * new total.  It always can below the largest bound; at that bound the guard of
   * the eviction loop is never true, so an overflowing insertion evicts nothing and
   * the counter sticks below the stored sum.
   */
  lemma InsertKeepsAccountsExactly(max: usize, l: Ledger, frame: ContentFrame)
    requires Accounted(max, l) && frame.sizeBytes <= max
    ensures Accounted(max, InsertStep(max, l, frame).0) <==> Countable(max, l, frame)
  {
    if Countable(max, l, frame) {
      CountableInsertKeepsAccounts(max, l, frame);
    } else {
      UncountableInsert(max, l, frame);
    }
  }

  /** At the largest bound two frames can be stored that the counter cannot add up. */
  lemma LargestBoundLosesCount()
    ensures var a := ContentFrame(0, "s", 0, 0, USIZE_MAX, "");
            var b := ContentFrame(1, "s", 0, 0, 1, "");
            var l := InsertStep(USIZE_MAX, InsertStep(USIZE_MAX, Ledger(0, []), a).0, b).0;
            l.frames == [a, b] && l.used == USIZE_MAX && Total(SizeOf(), l.frames) == USIZE_MAX + 1
  {
    var a := ContentFrame(0, "s", 0, 0, USIZE_MAX, "");
    var b := ContentFrame(1, "s", 0, 0, 1, "");
    var la := InsertStep(USIZE_MAX, Ledger(0, []), a).0;
    assert la == Ledger(USIZE_MAX, [a]);
    FilterOne(a, LacksKey(b.key));
    FilterOne(a, HasKey(b.key));
    assert [a] + [b] == [a, b];
    TotalConcat(SizeOf(), [a], [b]);
    TotalOne(SizeOf(), a);
    TotalOne(SizeOf(), b);
  }

  lemma SweepKeepsAccounts(max: usize, l: Ledger, nowTick: u64, adaptHz: u16, windows: seq<RetentionWindow>)
    requires Accounted(max, l)
    ensures Accounted(max, SweepStep(l, nowTick, adaptHz, windows).0)
  {
    FilterSplitsTotal(SizeOf(), l.frames, Expiring(nowTick, adaptHz, windows), Retained(nowTick, adaptHz, windows));
    FilterKeepsDistinctKeys(l.frames, Retained(nowTick, adaptHz, windows));
  }

  // ---------------------------------------------------------------- whole runs

  datatype Op = Insert(frame: ContentFrame) | Sweep(nowTick: u64, adaptHz: u16, windows: seq<RetentionWindow>)

  ghost function Step(max: usize, l: Ledger, op: Op): Ledger {
    match op
    case Insert(frame) => InsertStep(max, l, frame).0
    case Sweep(nowTick, adaptHz, windows) => SweepStep(l, nowTick, adaptHz, windows).0
  }

  /** The frames one operation takes out of the store. */
  ghost function RemovedBy(max: usize, l: Ledger, op: Op): seq<ContentFrame> {
    match op
    case Insert(frame) =>
      if frame.sizeBytes > max then []
      else Matching(l, frame.key) + MakeRoom(max, Forget(l, frame.key), frame.sizeBytes).dropped
    case Sweep(nowTick, adaptHz, windows) => Filter(l.frames, Expiring(nowTick, adaptHz, windows))
  }

  /** The bytes one operation brings into the store. */
  ghost function Added(max: usize, op: Op): nat {
    if op.Insert? && op.frame.sizeBytes <= max then op.frame.sizeBytes else 0
  }

  ghost function Reached(max: usize, ops: seq<Op>): Ledger {
    if ops == [] then Ledger(0, []) else Step(max, Reached(max, ops[..|ops| - 1]), ops[|ops| - 1])
  }

  ghost function AddedBytes(max: usize, ops: seq<Op>): nat {
    if ops == [] then 0 else AddedBytes(max, ops[..|ops| - 1]) + Added(max, ops[|ops| - 1])
  }

  ghost function RemovedBytes(max: usize, ops: seq<Op>): nat {
    if ops == [] then 0
    else
      RemovedBytes(max, ops[..|ops| - 1])
      + Total(SizeOf(), RemovedBy(max, Reached(max, ops[..|ops| - 1]), ops[|ops| - 1]))
  }

  lemma StepKeepsAccounts(max: usize, l: Ledger, op: Op)
    requires max < USIZE_MAX && Accounted(max, l)
    ensures Accounted(max, Step(max, l, op))
  {
    match op {
      case Insert(frame) =>
        if frame.sizeBytes <= max {
          InsertKeepsAccountsExactly(max, l, frame);
        }
      case Sweep(nowTick, adaptHz, windows) => SweepKeepsAccounts(max, l, nowTick, adaptHz, windows);
    }
  }

  lemma InsertConservesBytes(max: usize, l: Ledger, frame: ContentFrame)
    requires max < USIZE_MAX && Accounted(max, l) && frame.sizeBytes <= max
    ensures var room := MakeRoom(max, Forget(l, frame.key), frame.sizeBytes);
            Total(SizeOf(), room.kept + [frame]) + Total(SizeOf(), Matching(l, frame.key) + room.dropped)
            == Total(SizeOf(), l.frames) + frame.sizeBytes
  {
    var room := MakeRoom(max, Forget(l, frame.key), frame.sizeBytes);
    var matching, others := Matching(l, frame.key), Others(l, frame.key);
    assert room.dropped + room.kept == others by {
      ForgetIsExact(max, l, frame.key);
      MakeRoomDropsShortest(max, Forget(l, frame.key), frame.sizeBytes);
    }
    assert Total(SizeOf(), matching) + Total(SizeOf(), others) == Total(SizeOf(), l.frames) by {
      FilterSplitsTotal(SizeOf(), l.frames, HasKey(frame.key), LacksKey(frame.key));
    }
    TotalsRegroup(matching, room.dropped, room.kept, frame);
  }

  lemma TotalsRegroup(a: seq<ContentFrame>, b: seq<ContentFrame>, c: seq<ContentFrame>, f: ContentFrame)
    ensures Total(SizeOf(), c + [f]) + Total(SizeOf(), a + b)
         == Total(SizeOf(), a) + Total(SizeOf(), b + c) + f.sizeBytes
  {
    TotalConcat(SizeOf(), c, [f]);
    TotalConcat(SizeOf(), a, b);
    TotalConcat(SizeOf(), b, c);
    TotalOne(SizeOf(), f);
  }

  lemma StepConservesBytes(max: usize, l: Ledger, op: Op)
    requires max < USIZE_MAX && Accounted(max, l)
    ensures Total(SizeOf(), Step(max, l, op).frames) + Total(SizeOf(), RemovedBy(max, l, op))
         == Total(SizeOf(), l.frames) + Added(max, op)
  {
    match op {
      case Insert(frame) =>
        if frame.sizeBytes <= max {
          InsertConservesBytes(max, l, frame);
        }
      case Sweep(nowTick, adaptHz, windows) =>
        FilterSplitsTotal(SizeOf(), l.frames, Expiring(nowTick, adaptHz, windows), Retained(nowTick, adaptHz, windows));
    }
  }

  /**
   * Over every run below the largest bound: the counter is the sum of the stored
   * sizes and within the bound, no two frames share a key, and every byte inserted
   * is either still stored or was removed.
   */
  lemma {:induction false} RunsAreAccounted(max: usize, ops: seq<Op>)
    requires max < USIZE_MAX
    ensures Accounted(max, Reached(max, ops))
    ensures AddedBytes(max, ops) == Reached(max, ops).used + RemovedBytes(max, ops)
  {
    if ops != [] {
      var before, op := Reached(max, ops[..|ops| - 1]), ops[|ops| - 1];
      RunsAreAccounted(max, ops[..|ops| - 1]);
      StepKeepsAccounts(max, before, op);
      StepConservesBytes(max, before, op);
    }
  }

  /** The eviction loop never runs out of frames: its `break` is unreachable in every run. */
  lemma BreakIsUnreachable(max: usize, ops: seq<Op>, frame: ContentFrame)
    requires frame.sizeBytes <= max
    ensures var room := MakeRoom(max, Forget(Reached(max, ops), frame.key), frame.sizeBytes);
            SaturatingAdd(room.used, frame.sizeBytes, USIZE_MAX) <= max
  {
    if max < USIZE_MAX {
      RunsAreAccounted(max, ops);
      ForgetIsExact(max, Reached(max, ops), frame.key);
      MakeRoomDropsShortest(max, Forget(Reached(max, ops), frame.key), frame.sizeBytes);
    }
  }

  // ---------------------------------------------------------------- retention

  ghost predicate Covers(window: RetentionWindow, frame: ContentFrame) {
    window.session == frame.session && window.receiptSeq == frame.receiptSeq
  }

  /** The window that counts is the first that covers the frame; there is none iff no window does. */
  lemma {:induction false} WindowForIsFirst(frame: ContentFrame, windows: seq<RetentionWindow>)
    ensures match WindowFor(frame, windows)
            case None => forall w :: w in windows ==> !Covers(w, frame)
            case Some(w) => exists i :: 0 <= i < |windows| && windows[i] == w && Covers(w, frame)
                                        && forall j :: 0 <= j < i ==> !Covers(windows[j], frame)
  {
    if windows != [] {
      assert windows == [windows[0]] + windows[1..];
      if !Covers(windows[0], frame) {
        WindowForIsFirst(frame, windows[1..]);
        if WindowFor(frame, windows).Some? {
          var w := WindowFor(frame, windows).value;
          var i :| 0 <= i < |windows[1..]| && windows[1..][i] == w && Covers(w, frame)
                   && forall j :: 0 <= j < i ==> !Covers(windows[1..][j], frame);
          assert windows[i + 1] == w;
          assert forall j :: 0 <= j < i + 1 ==> j == 0 || windows[j] == windows[1..][j - 1];
        }
      } else {
        assert windows[0] in windows;
      }
    }
  }

  lemma QuotientExceeds(a: nat, d: nat, r: nat)
    requires d > 0
    ensures a / d > r <==> a >= (r + 1) * d
  {
    if a / d > r {
      ProductMonotone(r + 1, a / d, d);
    } else {
      ProductMonotone(a / d, r, d);
      assert (r + 1) * d == r * d + d;
    }
  }

  lemma ProductMonotone(x: nat, y: nat, d: nat)
    requires x <= y
    ensures x * d <= y * d
  {
    assert (y - x) * d == y * d - x * d;
  }

  /** The age, in thousandths of a tick, past which a frame is older than `retainMs`. */
  ghost function Due(retainMs: nat, adaptHz: u16): nat {
    (retainMs + 1) * (if adaptHz == 0 then 1 else adaptHz)
  }

  /** Has the clock gone `due` thousandths of a tick past the insertion? */
  ghost predicate Reaches(inserted: u64, now: u64, due: nat) {
    inserted <= now && (now - inserted) * 1000 >= due
  }

  /**
   * Exactly when a covered frame expires, for every clock, rate and window: its age
   * reaches the due age (retain_ms + 1) times the rate, a zero rate counting as one,
   * and that due age fits in 64 bits.
   */
  lemma ExpiryThreshold(frame: ContentFrame, now: u64, adaptHz: u16, windows: seq<RetentionWindow>)
    requires WindowFor(frame, windows).Some?
    ensures var due := Due(WindowFor(frame, windows).value.retainMs, adaptHz);
            Expired(frame, now, adaptHz, windows)
            <==> Reaches(frame.insertedTick, now, due) && due <= U64_MAX
  {
    var rate: nat := if adaptHz == 0 then 1 else adaptHz;
    var retainMs: nat := WindowFor(frame, windows).value.retainMs;
    QuotientExceeds(SaturatingMul(SaturatingSub(now, frame.insertedTick), 1000, U64_MAX), rate, retainMs);
    MultipleAtLeast(retainMs + 1, rate);
  }

  /** Does the frame expire at just the clocks at which it is older than its window? */
  ghost predicate ExpiresWhenDue(frame: ContentFrame, adaptHz: u16, windows: seq<RetentionWindow>, due: nat) {
    forall now: u64 ::
      Expired(frame, now, adaptHz, windows) <==> Reaches(frame.insertedTick, now, due)
  }

  /**
   * A covered frame expires when it is due iff its due age fits in 64 bits, or lies
   * beyond what the clock can reach anyway.
   */
  lemma OverdueExpiresExactly(frame: ContentFrame, adaptHz: u16, windows: seq<RetentionWindow>)
    requires WindowFor(frame, windows).Some?
    ensures var due := Due(WindowFor(frame, windows).value.retainMs, adaptHz);
            ExpiresWhenDue(frame, adaptHz, windows, due)
            <==> due <= U64_MAX || !Reaches(frame.insertedTick, U64_MAX, due)
  {
    var due := Due(WindowFor(frame, windows).value.retainMs, adaptHz);
    if due <= U64_MAX || !Reaches(frame.insertedTick, U64_MAX, due) {
      forall now: u64
        ensures Expired(frame, now, adaptHz, windows) <==> Reaches(frame.insertedTick, now, due)
      {
        ExpiryThreshold(frame, now, adaptHz, windows);
      }
    } else {
      ExpiryThreshold(frame, U64_MAX, adaptHz, windows);
    }
  }

  /**
   * A frame can outlive its window for ever: at rate 1000 with a window of
   * U64_MAX / 1000 + 1 ms, the last tick is many times past the window, and the frame
   * inserted at tick zero is still retained.
   */
  lemma SaturatedAgeNeverExpires()
    ensures var retainMs := U64_MAX / 1000 + 1;
            var frame := ContentFrame(0, "s", 0, 0, 1, "");
            var windows := [RetentionWindow("s", 0, retainMs)];
            && WindowFor(frame, windows) == Some(windows[0])
            && U64_MAX * 1000 / 1000 > retainMs
            && !Expired(frame, U64_MAX, 1000, windows)
  {
    var frame := ContentFrame(0, "s", 0, 0, 1, "");
    ExpiryThreshold(frame, U64_MAX, 1000, [RetentionWindow("s", 0, U64_MAX / 1000 + 1)]);
  }

  /**
   * Is the first window that covers the frame still open?  It closes once the frame's age
   * reaches the due age, unless that age does not fit in 64 bits.
   */
  ghost predicate StillRetained(frame: ContentFrame, now: u64, adaptHz: u16, windows: seq<RetentionWindow>) {
    exists i :: 0 <= i < |windows| && Covers(windows[i], frame)
                && (forall j :: 0 <= j < i ==> !Covers(windows[j], frame))
                && (var due := Due(windows[i].retainMs, adaptHz);
                    !Reaches(frame.insertedTick, now, due) || due > U64_MAX)
  }

  lemma ExpiredExactly(frame: ContentFrame, now: u64, adaptHz: u16, windows: seq<RetentionWindow>)
    ensures Expired(frame, now, adaptHz, windows) <==> !StillRetained(frame, now, adaptHz, windows)
  {
    WindowForIsFirst(frame, windows);
    match WindowFor(frame, windows) {
      case None =>
      case Some(w) =>
        ExpiryThreshold(frame, now, adaptHz, windows);
        var i :| 0 <= i < |windows| && windows[i] == w && Covers(w, frame)
                 && forall j :: 0 <= j < i ==> !Covers(windows[j], frame);
    }
  }

  /**
   * A sweep keeps a stored frame iff its first covering window exists and is still open;
   * the frames it keeps stay in order, and the keys it reports are those of the others.
   */
  lemma SweepKeepsExactly(l: Ledger, now: u64, adaptHz: u16, windows: seq<RetentionWindow>, f: ContentFrame)
    requires f in l.frames
    ensures var (after, removed) := SweepStep(l, now, adaptHz, windows);
            && (f in after.frames <==> StillRetained(f, now, adaptHz, windows))
            && (f !in after.frames ==> f.key in EvictedKeys(removed))
            && (f in after.frames && DistinctKeys(l.frames) ==> f.key !in EvictedKeys(removed))
  {
    var x, k := Expiring(now, adaptHz, windows), Retained(now, adaptHz, windows);
    ExpiredExactly(f, now, adaptHz, windows);
    FilterMembers(l.frames, x);
    FilterMembers(l.frames, k);
    SweepReportsExpired(l, now, adaptHz, windows);
    if DistinctKeys(l.frames) {
      SplitKeysDiffer(l.frames, x, k);
    }
  }

  /** A frame that no window covers is removed by every sweep, at every clock and rate, and reported. */
  lemma UncoveredFrameGoes(l: Ledger, now: u64, adaptHz: u16, windows: seq<RetentionWindow>, f: ContentFrame)
    requires f in l.frames && forall w :: w in windows ==> !Covers(w, f)
    ensures var (after, removed) := SweepStep(l, now, adaptHz, windows);
            f !in after.frames && f.key in EvictedKeys(removed)
  {
    SweepKeepsExactly(l, now, adaptHz, windows, f);
    forall i | 0 <= i < |windows|
      ensures !Covers(windows[i], f)
    {
      assert windows[i] in windows;
    }
  }

  /** A sweep's report gives retention as every reason and lists keys in ascending order, none twice. */
  lemma SweepReportIsAscending(l: Ledger, now: u64, adaptHz: u16, windows: seq<RetentionWindow>)
    ensures var removed := SweepStep(l, now, adaptHz, windows).1;
            && (forall e :: e in removed ==> e.reason == Retention)
            && (forall i, j :: 0 <= i < j < |removed| ==> removed[i].key < removed[j].key)
  {
    ListingIsAscending(KeyOrder(), KeysOf(Filter(l.frames, Expiring(now, adaptHz, windows))));
  }

  lemma MultipleAtLeast(k: nat, d: nat)
    requires k >= 1
    ensures k * d >= d
  {
    assert k * d == (k - 1) * d + d;
  }

  lemma QuotientsOrdered(q: nat, x: nat, r: nat, y: nat, d: nat)
    requires x < d && y < d && q * d + x <= r * d + y
    ensures q <= r
  {
    assert (q - r) * d == q * d - r * d;
    if q > r {
      MultipleAtLeast(q - r, d);
    }
  }

  lemma DivisionIsMonotone(a: nat, b: nat, d: nat)
    requires a <= b && d > 0
    ensures a / d <= b / d
  {
    QuotientsOrdered(a / d, a % d, b / d, b % d, d);
  }

  /** Saturating elapsed time never decreases as the clock advances. */
  lemma ElapsedIsMonotone(t1: u64, t2: u64, thenTick: u64, adaptHz: u16)
    requires t1 <= t2
    ensures ElapsedMs(t1, thenTick, adaptHz) <= ElapsedMs(t2, thenTick, adaptHz)
  {
    DivisionIsMonotone(
      SaturatingMul(SaturatingSub(t1, thenTick), 1000, U64_MAX),
      SaturatingMul(SaturatingSub(t2, thenTick), 1000, U64_MAX),
      if adaptHz > 1 then adaptHz else 1);
  }

  lemma ExpiryIsMonotone(f: ContentFrame, t1: u64, t2: u64, adaptHz: u16, windows: seq<RetentionWindow>)
    requires t1 <= t2 && Expired(f, t1, adaptHz, windows)
    ensures Expired(f, t2, adaptHz, windows)
  {
    ElapsedIsMonotone(t1, t2, f.insertedTick, adaptHz);
  }

  /**
   * Sweeps compose: sweeping at t1 and again at t2 >= t1 leaves the same frames, in
   * the same order, and the same counter as sweeping once at t2.
   */
  lemma SweepsCompose(l: Ledger, t1: u64, t2: u64, adaptHz: u16, windows: seq<RetentionWindow>)
    requires t1 <= t2
    ensures SweepStep(SweepStep(l, t1, adaptHz, windows).0, t2, adaptHz, windows).0
         == SweepStep(l, t2, adaptHz, windows).0
  {
    var x1, k1 := Expiring(t1, adaptHz, windows), Retained(t1, adaptHz, windows);
    var x2, k2 := Expiring(t2, adaptHz, windows), Retained(t2, adaptHz, windows);
    forall f: ContentFrame
      ensures k2(f) == (k1(f) && k2(f)) && x1(f) == (x2(f) && x1(f))
    {
      if x1(f) {
        ExpiryIsMonotone(f, t1, t2, adaptHz, windows);
      }
    }
    var survivors := Filter(l.frames, k1);
    FilterBoth(l.frames, k1, k2, k2);
    FilterSplitsTotal(SizeOf(), l.frames, x1, k1);
    FilterSplitsTotal(SizeOf(), survivors, x2, k2);
    FilterSplitsTotal(SizeOf(), l.frames, x2, k2);
  }

  /** The keys a list of removals names. */
  ghost function EvictedKeys(removed: seq<StoreEvicted>): set<StoreKey> {
    set e | e in removed :: e.key
  }

  lemma SweepReportsExpired(l: Ledger, now: u64, adaptHz: u16, windows: seq<RetentionWindow>)
    ensures EvictedKeys(SweepStep(l, now, adaptHz, windows).1)
         == KeysOf(Filter(l.frames, Expiring(now, adaptHz, windows)))
  {
    var keys := KeysOf(Filter(l.frames, Expiring(now, adaptHz, windows)));
    var listed := Listing(KeyOrder(), keys);
    ListingIsAscending(KeyOrder(), keys);
    ReportNamesKeys(listed);
    assert forall k :: k in listed <==> k in keys;
  }

  lemma ReportNamesKeys(keys: seq<StoreKey>)
    ensures forall k :: k in EvictedKeys(KeyEvictions(keys)) <==> k in keys
  {
    forall k | k in keys
      ensures k in EvictedKeys(KeyEvictions(keys))
    {
      var i :| 0 <= i < |keys| && keys[i] == k;
      assert KeyEvictions(keys)[i] in KeyEvictions(keys);
    }
  }

  /**
   * Two sweeps together report the keys one later sweep reports, and while no two
   * frames share a key, no key is reported twice.
   */
  lemma SweepsRemoveAlike(l: Ledger, t1: u64, t2: u64, adaptHz: u16, windows: seq<RetentionWindow>)
    requires t1 <= t2
    ensures var (swept, first) := SweepStep(l, t1, adaptHz, windows);
            var second := SweepStep(swept, t2, adaptHz, windows).1;
            && EvictedKeys(first) + EvictedKeys(second) == EvictedKeys(SweepStep(l, t2, adaptHz, windows).1)
            && (DistinctKeys(l.frames) ==> EvictedKeys(first) !! EvictedKeys(second))
  {
    var swept := SweepStep(l, t1, adaptHz, windows).0;
    SweepReportsExpired(l, t1, adaptHz, windows);
    SweepReportsExpired(swept, t2, adaptHz, windows);
    SweepReportsExpired(l, t2, adaptHz, windows);
    SweptFramesAlike(l, t1, t2, adaptHz, windows);
    if DistinctKeys(l.frames) {
      var x1, k1, x2 := Expiring(t1, adaptHz, windows), Retained(t1, adaptHz, windows), Expiring(t2, adaptHz, windows);
      FilterMembers(swept.frames, x2);
      SplitKeysDiffer(l.frames, x1, k1);
    }
  }

  /** In a list with one frame a key, what a condition selects shares no key with what its complement does. */
  lemma SplitKeysDiffer(frames: seq<ContentFrame>, p: ContentFrame -> bool, q: ContentFrame -> bool)
    requires DistinctKeys(frames) && forall f :: f in frames ==> q(f) == !p(f)
    ensures KeysOf(Filter(frames, p)) !! KeysOf(Filter(frames, q))
  {
    FilterMembers(frames, p);
    FilterMembers(frames, q);
    forall a, b | a in Filter(frames, p) && b in Filter(frames, q)
      ensures a.key != b.key
    {
      var i :| 0 <= i < |frames| && frames[i] == a;
      var j :| 0 <= j < |frames| && frames[j] == b;
      assert i != j;
    }
  }

  lemma SweptFramesAlike(l: Ledger, t1: u64, t2: u64, adaptHz: u16, windows: seq<RetentionWindow>)
    requires t1 <= t2
    ensures KeysOf(Filter(l.frames, Expiring(t1, adaptHz, windows)))
              + KeysOf(Filter(SweepStep(l, t1, adaptHz, windows).0.frames, Expiring(t2, adaptHz, windows)))
            == KeysOf(Filter(l.frames, Expiring(t2, adaptHz, windows)))
  {
    var x1, k1, x2 := Expiring(t1, adaptHz, windows), Retained(t1, adaptHz, windows), Expiring(t2, adaptHz, windows);
    FilterMembers(l.frames, x1);
    FilterMembers(l.frames, k1);
    FilterMembers(l.frames, x2);
    FilterMembers(Filter(l.frames, k1), x2);
    forall f | f in l.frames
      ensures x2(f) == (x1(f) || (k1(f) && x2(f)))
    {
      if x1(f) {
        ExpiryIsMonotone(f, t1, t2, adaptHz, windows);
      }
    }
    SameKeys(Filter(l.frames, x2), Filter(l.frames, x1), Filter(Filter(l.frames, k1), x2));
  }

  lemma SameKeys(all: seq<ContentFrame>, a: seq<ContentFrame>, b: seq<ContentFrame>)
    requires forall f :: f in all ==> f in a || f in b
    requires forall f :: f in a ==> f in all
    requires forall f :: f in b ==> f in all
    ensures KeysOf(a) + KeysOf(b) == KeysOf(all)
  {
  }

  /** Sweeping again at once removes nothing. */
  lemma SweepIsIdempotent(l: Ledger, now: u64, adaptHz: u16, windows: seq<RetentionWindow>)
    ensures var swept := SweepStep(l, now, adaptHz, windows).0;
            SweepStep(swept, now, adaptHz, windows) == (swept, [])
  {
    var swept := SweepStep(l, now, adaptHz, windows).0;
    FilterMembers(l.frames, Retained(now, adaptHz, windows));
    forall i | 0 <= i < |swept.frames|
      ensures Retained(now, adaptHz, windows)(swept.frames[i])
    {
      assert swept.frames[i] in swept.frames;
    }
    FilterAll(swept.frames, Retained(now, adaptHz, windows));
    FilterNone(swept.frames, Expiring(now, adaptHz, windows));
    assert KeysOf([]) == {};
  }
}

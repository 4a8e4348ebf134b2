/**
 * The per-player fake-block registry of the Cannons plugin: fake blocks shown
 * to one player only (aiming reticles, impact predictors), each kept as an
 * entry of an ordered list that a sweep run every tick prunes again.
 *
 * The world, player presence, the clock and the network are inputs here:
 * `isEmpty` says whether a cell holds no real block, `online` whether a
 * player is connected, `now` is the current time in milliseconds, and the
 * restorations that the sweeps send to players are returned as a log.
 */
module FakeBlocks {
  import opened Geometry

  /** The overlay a fake block belongs to. */
  datatype FakeBlockType = Aiming | ImpactPredictor

  /** A player's identity; whether the player is online is a separate input. */
  datatype Player = Player(id: nat)

  /**
   * One fake block shown to one player. A null location is kept as `None`:
   * registration never creates one, but both sweeps test for it.
   */
  datatype FakeBlockEntry = FakeBlockEntry(
    loc: Option<Loc>, player: Player, kind: FakeBlockType, startTime: int, duration: int)

  /** A real block sent back to a player in place of a fake one. */
  datatype Restore = Restore(player: Player, loc: Loc)

  /** The grace window subtracted from a type's last registration time. */
  const Grace: int := 50

  // ---------------------------------------------------------------------
  // Entry identity
  // ---------------------------------------------------------------------

  /** What `FakeBlockEntry.equals` compares: the player and the location. */
  function Key(e: FakeBlockEntry): (Player, Option<Loc>) {
    (e.player, e.loc)
  }

  predicate SameKey(e: FakeBlockEntry, player: Player, loc: Loc) {
    Key(e) == (player, Some(loc))
  }

  /** At most one entry per (player, location). */
  ghost predicate UniqueKeys(s: seq<FakeBlockEntry>) {
    forall i, j :: 0 <= i < |s| && 0 <= j < |s| && i != j ==> Key(s[i]) != Key(s[j])
  }

  ghost predicate HasKey(s: seq<FakeBlockEntry>, player: Player, loc: Loc) {
    exists i :: 0 <= i < |s| && SameKey(s[i], player, loc)
  }

  // ---------------------------------------------------------------------
  // The two sweeps, as functions of the list they start from
  // ---------------------------------------------------------------------

  /**
   * An entry of type AIMING older than `lastAiming - 50`, or of type
   * IMPACT_PREDICTOR older than `lastImpactPredictor - 50`.
   */
  predicate Superseded(e: FakeBlockEntry, lastAiming: int, lastImpactPredictor: int): (b: bool)
    ensures b <==> e.startTime < (if e.kind == Aiming then lastAiming else lastImpactPredictor) - Grace
  {
    (e.startTime < lastAiming - Grace && e.kind == Aiming)
    || (e.startTime < lastImpactPredictor - Grace && e.kind == ImpactPredictor)
  }

  /**
   * The two sweeps of a tick. `Expiry` is `removeOldBlocks` (with the
   * entries' `isExpired` as `expired`), `Supersede` is `removeOldBlockType`
   * (with the registry's two timestamps).
   */
  datatype Sweep =
    | Expiry(online: Player -> bool, expired: FakeBlockEntry -> bool)
    | Supersede(online: Player -> bool, lastAiming: int, lastImpactPredictor: int)

  /** Whether the sweep removes the entry from the list. */
  predicate Evicts(sw: Sweep, e: FakeBlockEntry): (b: bool)
    ensures sw.Expiry? && sw.online(e.player) ==> (b <==> sw.expired(e))
    ensures sw.Expiry? && !sw.online(e.player) ==> b
  {
    match sw
    case Expiry(online, expired) => !online(e.player) || expired(e)
    case Supersede(_, lastAiming, lastImpactPredictor) => Superseded(e, lastAiming, lastImpactPredictor)
  }

  /**
   * Whether removing the entry sends its player the real block: the player
   * is online and the location is not null. (For `Expiry` an evicted entry
   * of an online player is an expired one.)
   */
  predicate SendsRestore(sw: Sweep, e: FakeBlockEntry): (b: bool)
    ensures sw.Expiry? ==> (b <==> sw.online(e.player) && sw.expired(e) && e.loc.Some?)
    ensures b ==> Evicts(sw, e)
  {
    Evicts(sw, e) && sw.online(e.player) && e.loc.Some?
  }

  /** The list a sweep leaves: the entries it does not evict, in order. */
  function Kept(s: seq<FakeBlockEntry>, sw: Sweep): (r: seq<FakeBlockEntry>)
    ensures |r| <= |s|
    ensures forall e :: e in r ==> e in s && !Evicts(sw, e)
  {
    if s == [] then []
    else
      var last := s[|s| - 1];
      Kept(s[..|s| - 1], sw) + (if Evicts(sw, last) then [] else [last])
  }

  /** The restorations a sweep sends, in list order. */
  function Restored(s: seq<FakeBlockEntry>, sw: Sweep): (r: seq<Restore>)
    ensures |r| <= |s|
    ensures forall m :: m in r ==> sw.online(m.player)
  {
    if s == [] then []
    else
      var last := s[|s| - 1];
      Restored(s[..|s| - 1], sw)
      + (if SendsRestore(sw, last) then [Restore(last.player, last.loc.value)] else [])
  }

  lemma {:induction false} KeptExactly(s: seq<FakeBlockEntry>, sw: Sweep, e: FakeBlockEntry)
    ensures e in Kept(s, sw) <==> e in s && !Evicts(sw, e)
  {
    if s != [] {
      var init := s[..|s| - 1];
      KeptExactly(init, sw, e);
      assert s == init + [s[|s| - 1]];
    }
  }

  /** Filtering distributes over concatenation: the sweep keeps the order. */
  lemma {:induction false} KeptAppend(a: seq<FakeBlockEntry>, b: seq<FakeBlockEntry>, sw: Sweep)
    ensures Kept(a + b, sw) == Kept(a, sw) + Kept(b, sw)
  {
    if b == [] {
      assert a + b == a;
    } else {
      var init := b[..|b| - 1];
      assert (a + b)[..|a + b| - 1] == a + init;
      assert (a + b)[|a + b| - 1] == b[|b| - 1];
      KeptAppend(a, init, sw);
    }
  }

  /** The list is left as it is exactly when the sweep evicts nothing. */
  lemma {:induction false} KeptUnchanged(s: seq<FakeBlockEntry>, sw: Sweep)
    ensures Kept(s, sw) == s <==> forall i :: 0 <= i < |s| ==> !Evicts(sw, s[i])
  {
    if forall i :: 0 <= i < |s| ==> !Evicts(sw, s[i]) {
      KeptAllKept(s, sw);
    }
    if Kept(s, sw) == s {
      // every entry survives, and survivors are not evicted
      forall i | 0 <= i < |s| ensures !Evicts(sw, s[i]) {
        assert s[i] in Kept(s, sw);
      }
    }
  }

  lemma {:induction false} KeptAllKept(s: seq<FakeBlockEntry>, sw: Sweep)
    requires forall i :: 0 <= i < |s| ==> !Evicts(sw, s[i])
    ensures Kept(s, sw) == s
  {
    if s != [] {
      var init, last := s[..|s| - 1], s[|s| - 1];
      assert s == init + [last];
      assert forall i :: 0 <= i < |init| ==> !Evicts(sw, init[i]) by {
        forall i | 0 <= i < |init| ensures !Evicts(sw, init[i]) {
          assert init[i] == s[i];
        }
      }
      KeptAllKept(init, sw);
    }
  }

  /** Running the same sweep twice removes nothing more. */
  lemma {:induction false} KeptIdempotent(s: seq<FakeBlockEntry>, sw: Sweep)
    ensures Kept(Kept(s, sw), sw) == Kept(s, sw)
  {
    var k := Kept(s, sw);
    forall i | 0 <= i < |k| ensures !Evicts(sw, k[i]) {
      assert k[i] in k;
    }
    KeptUnchanged(k, sw);
  }

  /** A sweep keeps the registry free of duplicate (player, location) keys. */
  lemma {:induction false} KeptUnique(s: seq<FakeBlockEntry>, sw: Sweep)
    requires UniqueKeys(s)
    ensures UniqueKeys(Kept(s, sw))
  {
    if s != [] {
      var init := s[..|s| - 1];
      var last := s[|s| - 1];
      assert UniqueKeys(init) by {
        forall i, j | 0 <= i < |init| && 0 <= j < |init| && i != j
          ensures Key(init[i]) != Key(init[j])
        {
          assert init[i] == s[i] && init[j] == s[j];
        }
      }
      KeptUnique(init, sw);
      var k := Kept(init, sw);
      if !Evicts(sw, last) {
        forall e | e in k ensures Key(e) != Key(last) {
          assert e in init;
          var i :| 0 <= i < |init| && init[i] == e;
          assert s[i] == e;
        }
        var k' := k + [last];
        forall i, j | 0 <= i < |k'| && 0 <= j < |k'| && i != j
          ensures Key(k'[i]) != Key(k'[j])
        {
          if i == |k| {
            assert k'[j] in k;
          } else if j == |k| {
            assert k'[i] in k;
          } else {
            assert k'[i] == k[i] && k'[j] == k[j];
          }
        }
      }
    }
  }

  /**
   * A restoration is sent for exactly the evicted entries of online players
   * with a non-null location, and for nothing else.
   */
  lemma {:induction false} RestoredExactly(s: seq<FakeBlockEntry>, sw: Sweep, m: Restore)
    ensures m in Restored(s, sw)
        <==> exists e :: e in s && SendsRestore(sw, e) && m == Restore(e.player, e.loc.value)
  {
    if s != [] {
      var init := s[..|s| - 1];
      var last := s[|s| - 1];
      RestoredExactly(init, sw, m);
      assert s == init + [last];
      if exists e :: e in s && SendsRestore(sw, e) && m == Restore(e.player, e.loc.value) {
        var e :| e in s && SendsRestore(sw, e) && m == Restore(e.player, e.loc.value);
        if e != last {
          assert e in init;
        }
      }
    }
  }

  /** An entry is either kept or evicted, never both: nothing is counted twice. */
  lemma {:induction false} KeptAndRestoredBound(s: seq<FakeBlockEntry>, sw: Sweep)
    ensures |Kept(s, sw)| + |Restored(s, sw)| <= |s|
  {
    if s != [] {
      KeptAndRestoredBound(s[..|s| - 1], sw);
    }
  }

  /**
   * After one tick an entry remains exactly when its player is online, it has
   * not expired and it is not superseded by a newer registration of its type.
   */
  lemma TickKeeps(s: seq<FakeBlockEntry>, online: Player -> bool, expired: FakeBlockEntry -> bool,
                  lastAiming: int, lastImpactPredictor: int, e: FakeBlockEntry)
    ensures e in Kept(Kept(s, Expiry(online, expired)), Supersede(online, lastAiming, lastImpactPredictor))
        <==> e in s && online(e.player) && !expired(e) && !Superseded(e, lastAiming, lastImpactPredictor)
  {
    KeptExactly(s, Expiry(online, expired), e);
    KeptExactly(Kept(s, Expiry(online, expired)), Supersede(online, lastAiming, lastImpactPredictor), e);
  }

  // ---------------------------------------------------------------------
  // Registration, as a function of the registry it starts from
  // ---------------------------------------------------------------------

  /** The whole state of a `FakeBlockHandler`. */
  datatype Registry = Registry(list: seq<FakeBlockEntry>, lastAiming: int, lastImpactPredictor: int)

  /** The index of the first entry for (player, loc), or |s| when there is none. */
  function FirstMatch(s: seq<FakeBlockEntry>, player: Player, loc: Loc): (i: nat)
    ensures i <= |s|
    ensures i < |s| ==> SameKey(s[i], player, loc)
    ensures forall j :: 0 <= j < i ==> !SameKey(s[j], player, loc)
  {
    if s == [] then 0
    else if SameKey(s[0], player, loc) then 0
    else 1 + FirstMatch(s[1..], player, loc)
  }

  /** The entry a registration creates. */
  function NewEntry(player: Player, loc: Loc, kind: FakeBlockType, duration: int, now: int): FakeBlockEntry {
    FakeBlockEntry(Some(loc), player, kind, now, duration)
  }

  /**
   * `registerBlockChangeToPlayer`: nothing happens on a cell holding a real
   * block; otherwise the first entry for (player, loc) gets start time
   * `now`, or a new entry is appended, and the type's timestamp becomes `now`.
   */
  function Register(r: Registry, player: Player, loc: Loc, kind: FakeBlockType, duration: int, now: int,
                    isEmpty: Loc -> bool): (r': Registry)
    ensures |r.list| <= |r'.list| <= |r.list| + 1
    ensures forall j :: 0 <= j < |r.list| ==> Key(r'.list[j]) == Key(r.list[j])
  {
    if !isEmpty(loc) then r
    else
      var i := FirstMatch(r.list, player, loc);
      var list := if i < |r.list| then r.list[i := r.list[i].(startTime := now)]
                  else r.list + [NewEntry(player, loc, kind, duration, now)];
      Registry(list,
               if kind == Aiming then now else r.lastAiming,
               if kind == ImpactPredictor then now else r.lastImpactPredictor)
  }

  /** Registering over a non-empty cell changes neither the list nor a timestamp. */
  lemma RegisterSkipsOccupied(r: Registry, player: Player, loc: Loc, kind: FakeBlockType, duration: int,
                              now: int, isEmpty: Loc -> bool)
    requires !isEmpty(loc)
    ensures Register(r, player, loc, kind, duration, now, isEmpty) == r
  {
  }

  /**
   * Renewal: when an entry for (player, loc) exists, the length stays, the
   * first such entry only has its start time set to `now` (its type and
   * duration stay), and every other entry is untouched.
   */
  lemma RegisterRenews(r: Registry, player: Player, loc: Loc, kind: FakeBlockType, duration: int,
                       now: int, isEmpty: Loc -> bool, i: nat)
    requires isEmpty(loc)
    requires i < |r.list| && SameKey(r.list[i], player, loc)
    requires forall j :: 0 <= j < i ==> !SameKey(r.list[j], player, loc)
    ensures var r' := Register(r, player, loc, kind, duration, now, isEmpty);
      && |r'.list| == |r.list|
      && r'.list[i] == r.list[i].(startTime := now)
      && r'.list[i].kind == r.list[i].kind && r'.list[i].duration == r.list[i].duration
      && forall j :: 0 <= j < |r.list| && j != i ==> r'.list[j] == r.list[j]
  {
    assert FirstMatch(r.list, player, loc) == i;
  }

  /**
   * Append: when no entry for (player, loc) exists, exactly one new entry is
   * appended and the earlier entries are untouched.
   */
  lemma RegisterAppends(r: Registry, player: Player, loc: Loc, kind: FakeBlockType, duration: int,
                        now: int, isEmpty: Loc -> bool)
    requires isEmpty(loc)
    requires !HasKey(r.list, player, loc)
    ensures Register(r, player, loc, kind, duration, now, isEmpty).list
         == r.list + [FakeBlockEntry(Some(loc), player, kind, now, duration)]
  {
  }

  /**
   * On an empty cell, renewed or added alike, the timestamp of the
   * registered type becomes `now` and the other one stays.
   */
  lemma RegisterStamps(r: Registry, player: Player, loc: Loc, kind: FakeBlockType, duration: int,
                       now: int, isEmpty: Loc -> bool)
    requires isEmpty(loc)
    ensures var r' := Register(r, player, loc, kind, duration, now, isEmpty);
      && r'.lastAiming == (if kind == Aiming then now else r.lastAiming)
      && r'.lastImpactPredictor == (if kind == ImpactPredictor then now else r.lastImpactPredictor)
  {
  }

  /**
   * Registration keeps at most one entry per (player, location), leaves an
   * entry for (player, loc) on an empty cell, and keeps every key it found.
   */
  lemma RegisterKeys(r: Registry, player: Player, loc: Loc, kind: FakeBlockType, duration: int,
                     now: int, isEmpty: Loc -> bool)
    requires UniqueKeys(r.list)
    ensures var r' := Register(r, player, loc, kind, duration, now, isEmpty);
      && UniqueKeys(r'.list)
      && (isEmpty(loc) ==> HasKey(r'.list, player, loc))
      && forall p, l :: HasKey(r.list, p, l) ==> HasKey(r'.list, p, l)
  {
    var r' := Register(r, player, loc, kind, duration, now, isEmpty);
    if isEmpty(loc) {
      var s := r.list;
      var i := FirstMatch(s, player, loc);
      if i < |s| {
        assert SameKey(r'.list[i], player, loc);
        forall p, l | HasKey(s, p, l) ensures HasKey(r'.list, p, l) {
          var j :| 0 <= j < |s| && SameKey(s[j], p, l);
          assert SameKey(r'.list[j], p, l);
        }
        forall a, b | 0 <= a < |r'.list| && 0 <= b < |r'.list| && a != b
          ensures Key(r'.list[a]) != Key(r'.list[b])
        {
          assert Key(r'.list[a]) == Key(s[a]) && Key(r'.list[b]) == Key(s[b]);
        }
      } else {
        var e := NewEntry(player, loc, kind, duration, now);
        assert r'.list == s + [e];
        assert SameKey(r'.list[|s|], player, loc);
        forall p, l | HasKey(s, p, l) ensures HasKey(r'.list, p, l) {
          var j :| 0 <= j < |s| && SameKey(s[j], p, l);
          assert SameKey(r'.list[j], p, l);
        }
        forall a, b | 0 <= a < |r'.list| && 0 <= b < |r'.list| && a != b
          ensures Key(r'.list[a]) != Key(r'.list[b])
        {
          if a == |s| {
            assert !SameKey(s[b], player, loc);
          } else if b == |s| {
            assert !SameKey(s[a], player, loc);
          } else {
            assert r'.list[a] == s[a] && r'.list[b] == s[b];
          }
        }
      }
    }
  }

  /** A second registration at the same (player, loc) renews instead of adding. */
  lemma RegisterTwiceRenews(r: Registry, player: Player, loc: Loc, kind: FakeBlockType, duration: int,
                            now: int, later: int, isEmpty: Loc -> bool)
    requires isEmpty(loc)
    ensures var r1 := Register(r, player, loc, kind, duration, now, isEmpty);
      |Register(r1, player, loc, kind, duration, later, isEmpty).list| == |r1.list|
  {
    var r1 := Register(r, player, loc, kind, duration, now, isEmpty);
    var i := FirstMatch(r.list, player, loc);
    var j := if i < |r.list| then i else |r.list|;
    assert SameKey(r1.list[j], player, loc);
    assert FirstMatch(r1.list, player, loc) <= j;
  }

  /**
   * `registerBlockChangeToPlayer` applied to each location in turn; the
   * i-th registration reads the clock as `nows[i]`.
   */
  function RegisterAll(r: Registry, player: Player, locs: seq<Loc>, kind: FakeBlockType, duration: int,
                       nows: seq<int>, isEmpty: Loc -> bool): (r': Registry)
    requires |nows| == |locs|
    ensures |r.list| <= |r'.list| <= |r.list| + |locs|
  {
    if locs == [] then r
    else Register(RegisterAll(r, player, locs[..|locs| - 1], kind, duration, nows[..|nows| - 1], isEmpty),
                  player, locs[|locs| - 1], kind, duration, nows[|nows| - 1], isEmpty)
  }

  /**
   * Registering a batch keeps at most one entry per key and leaves an entry
   * for the player at every empty location of the batch.
   */
  lemma {:induction false} RegisterAllKeys(r: Registry, player: Player, locs: seq<Loc>, kind: FakeBlockType,
                                           duration: int, nows: seq<int>, isEmpty: Loc -> bool)
    requires |nows| == |locs|
    requires UniqueKeys(r.list)
    ensures var r' := RegisterAll(r, player, locs, kind, duration, nows, isEmpty);
      && UniqueKeys(r'.list)
      && forall l :: l in locs && isEmpty(l) ==> HasKey(r'.list, player, l)
  {
    if locs != [] {
      var init := locs[..|locs| - 1];
      var last := locs[|locs| - 1];
      var initNows := nows[..|nows| - 1];
      RegisterAllKeys(r, player, init, kind, duration, initNows, isEmpty);
      var mid := RegisterAll(r, player, init, kind, duration, initNows, isEmpty);
      RegisterKeys(mid, player, last, kind, duration, nows[|nows| - 1], isEmpty);
      assert locs == init + [last];
    }
  }

  /**
   * After a batch whose last location is empty, the batch's type carries the
   * clock reading of that last registration.
   */
  lemma RegisterAllLastStamp(r: Registry, player: Player, locs: seq<Loc>, kind: FakeBlockType,
                             duration: int, nows: seq<int>, isEmpty: Loc -> bool)
    requires |nows| == |locs| && |locs| > 0 && isEmpty(locs[|locs| - 1])
    ensures var r' := RegisterAll(r, player, locs, kind, duration, nows, isEmpty);
      (if kind == Aiming then r'.lastAiming else r'.lastImpactPredictor) == nows[|nows| - 1]
  {
  }

  // ---------------------------------------------------------------------
  // The batches sent to the player
  // ---------------------------------------------------------------------

  /** A registration never gives (p, l) an entry when l holds a real block. */
  lemma RegisterOverRealBlock(r: Registry, player: Player, loc: Loc, kind: FakeBlockType, duration: int,
                              now: int, isEmpty: Loc -> bool, p: Player, l: Loc)
    requires !isEmpty(l) && !HasKey(r.list, p, l)
    ensures !HasKey(Register(r, player, loc, kind, duration, now, isEmpty).list, p, l)
  {
    var r' := Register(r, player, loc, kind, duration, now, isEmpty);
    forall i | 0 <= i < |r'.list| ensures !SameKey(r'.list[i], p, l) {
      if i < |r.list| {
        assert !SameKey(r.list[i], p, l);
      } else {
        // the appended entry is for `loc`, which is empty while `l` is not
        assert r'.list[i] == NewEntry(player, loc, kind, duration, now);
      }
    }
  }

  /** Nor does a batch of registrations. */
  lemma {:induction false} RegisterAllOverRealBlock(r: Registry, player: Player, locs: seq<Loc>, kind: FakeBlockType,
                                                    duration: int, nows: seq<int>, isEmpty: Loc -> bool, l: Loc)
    requires |nows| == |locs|
    requires !isEmpty(l) && !HasKey(r.list, player, l)
    ensures !HasKey(RegisterAll(r, player, locs, kind, duration, nows, isEmpty).list, player, l)
  {
    if locs != [] {
      var init, initNows := locs[..|locs| - 1], nows[..|nows| - 1];
      RegisterAllOverRealBlock(r, player, init, kind, duration, initNows, isEmpty, l);
      var mid := RegisterAll(r, player, init, kind, duration, initNows, isEmpty);
      RegisterOverRealBlock(mid, player, locs[|locs| - 1], kind, duration, nows[|nows| - 1], isEmpty, player, l);
    }
  }

  /** Without an entry for (p, l), a sweep restores nothing there, and leaves no entry for it. */
  lemma NoEntryNoRestore(s: seq<FakeBlockEntry>, sw: Sweep, p: Player, l: Loc)
    requires !HasKey(s, p, l)
    ensures Restore(p, l) !in Restored(s, sw)
    ensures !HasKey(Kept(s, sw), p, l)
  {
    RestoredExactly(s, sw, Restore(p, l));
    forall e | e in s && SendsRestore(sw, e) ensures Restore(e.player, e.loc.value) != Restore(p, l) {
      var i :| 0 <= i < |s| && s[i] == e;
      assert !SameKey(s[i], p, l);
    }
    var k := Kept(s, sw);
    forall i | 0 <= i < |k| ensures !SameKey(k[i], p, l) {
      assert k[i] in k;
      var j :| 0 <= j < |s| && s[j] == k[i];
      assert !SameKey(s[j], p, l);
    }
  }

  /**
   * As written, `sendBlockChanges` and `imitateLine` send the player every
   * cell of the batch, including a cell over a real block, which
   * registration skips. That cell gets no entry, so no sweep sends the real
   * block back: the fake block stays on top of it.
   */
  lemma MaskedCellNeverRestored(r: Registry, player: Player, locs: seq<Loc>, kind: FakeBlockType, duration: int,
                                nows: seq<int>, isEmpty: Loc -> bool, l: Loc, sw: Sweep)
    requires |nows| == |locs| && l in locs
    requires !isEmpty(l) && !HasKey(r.list, player, l)
    ensures var r' := RegisterAll(r, player, locs, kind, duration, nows, isEmpty);
      && !HasKey(r'.list, player, l)
      && Restore(player, l) !in Restored(r'.list, sw)
      && !HasKey(Kept(r'.list, sw), player, l)
  {
    RegisterAllOverRealBlock(r, player, locs, kind, duration, nows, isEmpty, l);
    NoEntryNoRestore(RegisterAll(r, player, locs, kind, duration, nows, isEmpty).list, sw, player, l);
  }

  /** The batch as intended: only the cells that registration accepts, those without a real block. */
  function OverlayCells<D>(blockChangeMap: map<Loc, D>, isEmpty: Loc -> bool): (m: map<Loc, D>)
    ensures forall l :: l in m <==> l in blockChangeMap && isEmpty(l)
    ensures forall l :: l in m ==> m[l] == blockChangeMap[l]
  {
    map l | l in blockChangeMap && isEmpty(l) :: blockChangeMap[l]
  }

  /**
   * Every cell of the intended batch has an entry after the batch is
   * registered, so the expiry sweep sends its real block back once the
   * entry expires while its player is online.
   */
  lemma OverlayCellsRestorable<D>(r: Registry, player: Player, blockChangeMap: map<Loc, D>, order: seq<Loc>,
                                  kind: FakeBlockType, duration: int, nows: seq<int>, isEmpty: Loc -> bool,
                                  online: Player -> bool, expired: FakeBlockEntry -> bool, l: Loc)
    requires UniqueKeys(r.list) && |nows| == |order|
    requires forall k :: k in blockChangeMap <==> k in order
    requires l in OverlayCells(blockChangeMap, isEmpty)
    ensures var r' := RegisterAll(r, player, order, kind, duration, nows, isEmpty);
      && HasKey(r'.list, player, l)
      && forall e :: e in r'.list && SameKey(e, player, l) && online(player) && expired(e) ==>
           Restore(player, l) in Restored(r'.list, Expiry(online, expired))
  {
    var r' := RegisterAll(r, player, order, kind, duration, nows, isEmpty);
    RegisterAllKeys(r, player, order, kind, duration, nows, isEmpty);
    RestoredExactly(r'.list, Expiry(online, expired), Restore(player, l));
  }

  // ---------------------------------------------------------------------
  // Shapes and distance predicates
  // ---------------------------------------------------------------------

  /** `newL.distanceSquared(loc)` for two lattice locations. */
  function SqDist(a: Loc, b: Loc): int {
    (a.x - b.x) * (a.x - b.x) + (a.y - b.y) * (a.y - b.y) + (a.z - b.z) * (a.z - b.z)
  }

  /** The cells that `imitateSphere`'s three loops visit and keep. */
  predicate InSphere(dx: int, dy: int, dz: int, r: int) {
    && -r <= dx <= r && -r <= dy <= r && -r <= dz <= r
    && dx * dx + dy * dy + dz * dz <= r * r
  }

  lemma SquareBound(a: int, r: int)
    requires r >= 0 && a * a <= r * r
    ensures -r <= a <= r
  {
  }

  /**
   * The sphere is exactly the lattice points within squared distance r*r;
   * the loop bounds cut nothing off, and a negative radius gives no cell.
   */
  lemma InSphereExactly(dx: int, dy: int, dz: int, r: int)
    ensures InSphere(dx, dy, dz, r) <==> r >= 0 && dx * dx + dy * dy + dz * dz <= r * r
  {
    if r >= 0 && dx * dx + dy * dy + dz * dz <= r * r {
      assert dx * dx >= 0 && dy * dy >= 0 && dz * dz >= 0;
      SquareBound(dx, r);
      SquareBound(dy, r);
      SquareBound(dz, r);
    }
  }

  /**
   * `imitateSphere`: every lattice location within distance r of `center`
   * mapped to `blockData`.
   */
  method ImitateSphere<D>(center: Loc, r: int, blockData: D) returns (m: map<Loc, D>)
    ensures forall l :: l in m <==> InSphere(l.x - center.x, l.y - center.y, l.z - center.z, r)
    ensures forall l :: l in m ==> m[l] == blockData
  {
    m := map[];
    var x := -r;
    while x <= r
      invariant -r <= x && (x <= r + 1 || r < 0)
      invariant forall l :: l in m <==>
        InSphere(l.x - center.x, l.y - center.y, l.z - center.z, r)
        && Precedes(l.x - center.x, l.y - center.y, l.z - center.z, x, -r, -r)
      invariant forall l :: l in m ==> m[l] == blockData
    {
      var y := -r;
      while y <= r
        invariant -r <= y <= r + 1
        invariant forall l :: l in m <==>
          InSphere(l.x - center.x, l.y - center.y, l.z - center.z, r)
          && Precedes(l.x - center.x, l.y - center.y, l.z - center.z, x, y, -r)
        invariant forall l :: l in m ==> m[l] == blockData
      {
        var z := -r;
        while z <= r
          invariant -r <= z <= r + 1
          invariant forall l :: l in m <==>
            InSphere(l.x - center.x, l.y - center.y, l.z - center.z, r)
            && Precedes(l.x - center.x, l.y - center.y, l.z - center.z, x, y, z)
          invariant forall l :: l in m ==> m[l] == blockData
        {
          var newL := Offset(center, x, y, z);
          if SqDist(newL, center) <= r * r {
            m := m[newL := blockData];
          }
          z := z + 1;
        }
        y := y + 1;
      }
      x := x + 1;
    }
  }

  /**
   * `isBetweenLimits`: false for a null player or location, otherwise
   * whether the distance lies strictly between the configured limits.
   * `distance` is `Location.distance`, a floating-point library call.
   */
  function IsBetweenLimits(player: Option<Vec3>, loc: Option<Vec3>, distance: (Vec3, Vec3) -> real,
                           minDistance: real, maxDistance: real): (b: bool)
    ensures b <==> player.Some? && loc.Some? && minDistance < distance(player.value, loc.value) < maxDistance
  {
    if player.None? || loc.None? then false
    else
      var dist := distance(player.value, loc.value);
      dist > minDistance && dist < maxDistance
  }

  /**
   * `belowMaxLimit`: false for a null player or location, otherwise whether
   * the distance lies strictly below the maximum.
   */
  function BelowMaxLimit(player: Option<Vec3>, loc: Option<Vec3>, distance: (Vec3, Vec3) -> real,
                         maxDistance: real): (b: bool)
    ensures b <==> player.Some? && loc.Some? && distance(player.value, loc.value) < maxDistance
  {
    if player.None? || loc.None? then false
    else distance(player.value, loc.value) < maxDistance
  }

  /** A location between the limits is below the maximum. */
  lemma BetweenLimitsIsBelowMax(player: Option<Vec3>, loc: Option<Vec3>, distance: (Vec3, Vec3) -> real,
                                minDistance: real, maxDistance: real)
    ensures IsBetweenLimits(player, loc, distance, minDistance, maxDistance)
        ==> BelowMaxLimit(player, loc, distance, maxDistance)
  {
  }

  // ---------------------------------------------------------------------
  // The handler
  // ---------------------------------------------------------------------

  class FakeBlockHandler {
    var list: seq<FakeBlockEntry>
    var lastAiming: int
    var lastImpactPredictor: int

    function State(): Registry
      reads this
    {
      Registry(list, lastAiming, lastImpactPredictor)
    }

    /** The design invariant: at most one entry per (player, location). */
    ghost predicate Valid()
      reads this
    {
      UniqueKeys(list)
    }

    /** A fresh handler: no entries, both timestamps 0 (Java's default for `long`). */
    constructor ()
      ensures list == [] && lastAiming == 0 && lastImpactPredictor == 0
      ensures Valid()
    {
      list := [];
      lastAiming := 0;
      lastImpactPredictor := 0;
    }

    /**
     * `removeOldBlocks`: drops every entry whose player is offline (sending
     * nothing) or that has expired (sending the real block when the location
     * is not null).
     */
    method RemoveOldBlocks(online: Player -> bool, expired: FakeBlockEntry -> bool)
      returns (sent: seq<Restore>)
      requires Valid()
      modifies this
      ensures Valid()
      ensures list == Kept(old(list), Expiry(online, expired))
      ensures sent == Restored(old(list), Expiry(online, expired))
      ensures lastAiming == old(lastAiming) && lastImpactPredictor == old(lastImpactPredictor)
    {
      ghost var sw := Expiry(online, expired);
      var s := list;
      var kept: seq<FakeBlockEntry> := [];
      sent := [];
      var i := 0;
      while i < |s|
        invariant 0 <= i <= |s|
        invariant kept == Kept(s[..i], sw)
        invariant sent == Restored(s[..i], sw)
      {
        var next := s[i];
        assert s[..i + 1][..i] == s[..i];
        if !online(next.player) {
          // the player is offline: remove the entry without a message
        } else if expired(next) {
          if next.loc.Some? {
            sent := sent + [Restore(next.player, next.loc.value)];
          }
        } else {
          kept := kept + [next];
        }
        i := i + 1;
      }
      assert s[..i] == s;
      KeptUnique(s, sw);
      list := kept;
    }

    /**
     * `removeOldBlockType`: drops every entry superseded by a later
     * registration of its type, sending the real block when the player is
     * online and the location is not null.
     */
    method RemoveOldBlockType(online: Player -> bool) returns (sent: seq<Restore>)
      requires Valid()
      modifies this
      ensures Valid()
      ensures list == Kept(old(list), Supersede(online, lastAiming, lastImpactPredictor))
      ensures sent == Restored(old(list), Supersede(online, lastAiming, lastImpactPredictor))
      ensures lastAiming == old(lastAiming) && lastImpactPredictor == old(lastImpactPredictor)
    {
      ghost var sw := Supersede(online, lastAiming, lastImpactPredictor);
      var s := list;
      var kept: seq<FakeBlockEntry> := [];
      sent := [];
      var i := 0;
      while i < |s|
        invariant 0 <= i <= |s|
        invariant kept == Kept(s[..i], sw)
        invariant sent == Restored(s[..i], sw)
      {
        var next := s[i];
        assert s[..i + 1][..i] == s[..i];
        var superseded := (next.startTime < lastAiming - Grace && next.kind == Aiming)
          || (next.startTime < lastImpactPredictor - Grace && next.kind == ImpactPredictor);
        assert superseded == Evicts(sw, next);
        if superseded {
          if online(next.player) && next.loc.Some? {
            sent := sent + [Restore(next.player, next.loc.value)];
          }
        } else {
          kept := kept + [next];
        }
        i := i + 1;
      }
      assert s[..i] == s;
      KeptUnique(s, sw);
      list := kept;
    }

    /** One tick of the scheduler: `removeOldBlocks`, then `removeOldBlockType`. */
    method Tick(online: Player -> bool, expired: FakeBlockEntry -> bool) returns (sent: seq<Restore>)
      requires Valid()
      modifies this
      ensures Valid()
      ensures list == Kept(Kept(old(list), Expiry(online, expired)),
                           Supersede(online, lastAiming, lastImpactPredictor))
      ensures sent == Restored(old(list), Expiry(online, expired))
                    + Restored(Kept(old(list), Expiry(online, expired)),
                               Supersede(online, lastAiming, lastImpactPredictor))
      ensures lastAiming == old(lastAiming) && lastImpactPredictor == old(lastImpactPredictor)
    {
      var expiredSent := RemoveOldBlocks(online, expired);
      var supersededSent := RemoveOldBlockType(online);
      sent := expiredSent + supersededSent;
    }

    /**
     * `registerBlockChangeToPlayer`, with the duration already converted to
     * ticks. Its effect is `Register`; see the lemmas about it above.
     */
    method RegisterBlockChangeToPlayer(player: Player, loc: Loc, kind: FakeBlockType, duration: int,
                                       now: int, isEmpty: Loc -> bool)
      requires Valid()
      modifies this
      ensures State() == Register(old(State()), player, loc, kind, duration, now, isEmpty)
      ensures Valid()
    {
      RegisterKeys(State(), player, loc, kind, duration, now, isEmpty);
      if isEmpty(loc) {
        var entry := NewEntry(player, loc, kind, duration, now);
        var found := false;
        var i := 0;
        while i < |list|
          invariant 0 <= i <= |list|
          invariant list == old(list) && !found
          invariant forall j :: 0 <= j < i ==> !SameKey(list[j], player, loc)
        {
          if SameKey(list[i], player, loc) {
            // renew the entry; there is only one for this player and place
            list := list[i := list[i].(startTime := now)];
            found := true;
            break;
          }
          i := i + 1;
        }
        assert found ==> i == FirstMatch(old(list), player, loc);
        if !found {
          list := list + [entry];
        }
        if kind == ImpactPredictor {
          lastImpactPredictor := now;
        }
        if kind == Aiming {
          lastAiming := now;
        }
      }
    }

    /**
     * `sendBlockChanges`: nothing for a null player; otherwise registers
     * every location of the map once, in the map's iteration order `order`,
     * and sends the player the whole map; the i-th registration reads the
     * clock as `nows[i]`. See `MaskedCellNeverRestored` for the cells over
     * real blocks that the map may hold.
     */
    method SendBlockChanges<D>(player: Option<Player>, blockChangeMap: map<Loc, D>, order: seq<Loc>,
                               kind: FakeBlockType, duration: int, nows: seq<int>, isEmpty: Loc -> bool)
      returns (sent: map<Loc, D>)
      requires Valid()
      requires forall l :: l in blockChangeMap <==> l in order
      requires forall i, j :: 0 <= i < j < |order| ==> order[i] != order[j]
      requires |nows| == |order|
      modifies this
      ensures Valid()
      ensures player.None? ==> State() == old(State()) && sent == map[]
      ensures player.Some? ==>
        && State() == RegisterAll(old(State()), player.value, order, kind, duration, nows, isEmpty)
        && sent == blockChangeMap
    {
      sent := map[];
      if player.None? {
        return;
      }
      var i := 0;
      while i < |order|
        invariant 0 <= i <= |order|
        invariant Valid()
        invariant State() == RegisterAll(old(State()), player.value, order[..i], kind, duration, nows[..i], isEmpty)
      {
        assert order[..i + 1][..i] == order[..i];
        assert nows[..i + 1][..i] == nows[..i];
        RegisterBlockChangeToPlayer(player.value, order[i], kind, duration, nows[i], isEmpty);
        i := i + 1;
      }
      assert order[..i] == order;
      assert nows[..i] == nows;
      // `player.sendMultiBlockChange(blockChangeMap)`: the whole map
      sent := blockChangeMap;
    }

    /**
     * `imitateLine` without the ray traversal: `ray` is what the block
     * iterator yields for the start location. Every block of the ray is
     * registered in turn and mapped to `blockData` in the batch sent to the
     * player. The i-th registration reads the clock as `nows[i]`. See
     * `MaskedCellNeverRestored` for the ray blocks over real blocks.
     */
    method ImitateLine<D>(player: Option<Player>, start: Option<Loc>, ray: seq<Loc>, blockData: D,
                          kind: FakeBlockType, duration: int, nows: seq<int>, isEmpty: Loc -> bool)
      returns (blockChangeMap: map<Loc, D>)
      requires Valid()
      requires |nows| == |ray|
      modifies this
      ensures Valid()
      ensures player.None? || start.None? ==> State() == old(State()) && blockChangeMap == map[]
      ensures player.Some? && start.Some? ==>
        && State() == RegisterAll(old(State()), player.value, ray, kind, duration, nows, isEmpty)
        && (forall l :: l in blockChangeMap <==> l in ray)
        && (forall l :: l in blockChangeMap ==> blockChangeMap[l] == blockData)
    {
      blockChangeMap := map[];
      if start.None? || player.None? {
        return;
      }
      var i := 0;
      while i < |ray|
        invariant 0 <= i <= |ray|
        invariant Valid()
        invariant State() == RegisterAll(old(State()), player.value, ray[..i], kind, duration, nows[..i], isEmpty)
        invariant forall l :: l in blockChangeMap <==> l in ray[..i]
        invariant forall l :: l in blockChangeMap ==> blockChangeMap[l] == blockData
      {
        assert ray[..i + 1] == ray[..i] + [ray[i]];
        assert ray[..i + 1][..i] == ray[..i];
        assert nows[..i + 1][..i] == nows[..i];
        blockChangeMap := blockChangeMap[ray[i] := blockData];
        RegisterBlockChangeToPlayer(player.value, ray[i], kind, duration, nows[i], isEmpty);
        i := i + 1;
      }
      assert ray[..i] == ray;
      assert nows[..i] == nows;
    }
  }
}

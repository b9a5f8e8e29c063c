/**
 The client-side session store of mobile/utils/sessionStorage.ts, as pure functions
 over an explicit store value. The store has the two persisted keys of the app: the
 serialized collection of sessions and the identifier of the current session.
 Each asynchronous read-modify-write of the original is one atomic step here.
 */
module SessionStorage {
  import opened Results
  import opened SessionTypes
  import StableSort
  import SessionTitle

  /** The collection key: absent (never written, or removed), holding a list, or
      holding something that cannot be read back (the read throws, or the text is not
      a JSON array). */
  datatype Slot = Absent | Present(sessions: seq<Session>) | Unreadable

  /** Both persisted keys. */
  datatype Store = Store(sessions: Slot, current: Option<string>)

  /** Why a write operation failed. */
  datatype StorageError = CollectionUnreadable

  /** The sessions a write starts from: a missing key reads as the empty list. */
  function StoredOrEmpty(slot: Slot): (xs: seq<Session>)
    requires !slot.Unreadable?
    ensures slot.Absent? ==> xs == []
    ensures slot.Present? ==> xs == slot.sessions
  {
    if slot.Present? then slot.sessions else []
  }

  /** The eviction order: oldest activity first. */
  function ActivityKey(s: Session): int {
    s.lastActivityAt
  }

  /** The listing order: most recent activity first. */
  function RecencyKey(m: SessionMetadata): int {
    -m.lastActivityAt
  }

  /** No two sessions share an identifier. */
  predicate DistinctIds(xs: seq<Session>) {
    forall i, j | 0 <= i < j < |xs| :: xs[i].id != xs[j].id
  }

  /** No session of `xs` has identifier `id`. */
  predicate IdAbsent(xs: seq<Session>, id: string) {
    forall j | 0 <= j < |xs| :: xs[j].id != id
  }

  /** The store invariant the operations keep: at most `MAX_SESSIONS` sessions, with
      distinct identifiers. */
  predicate Valid(st: Store) {
    st.sessions.Present? ==> |st.sessions.sessions| <= MAX_SESSIONS && DistinctIds(st.sessions.sessions)
  }

  // ---------------------------------------------------------------- listing

  /** The listing entry of every session, in stored order. */
  function MetadataOf(xs: seq<Session>): (ms: seq<SessionMetadata>)
    ensures |ms| == |xs|
    ensures forall i | 0 <= i < |xs| :: ms[i] == ToMetadata(xs[i])
  {
    seq(|xs|, i requires 0 <= i < |xs| => ToMetadata(xs[i]))
  }

  /** `getAllSessionsMetadata`: one entry per stored session, most recent first; an
      absent or unreadable collection lists nothing. */
  function GetAllSessionsMetadata(st: Store): (r: seq<SessionMetadata>)
    ensures !st.sessions.Present? ==> r == []
    ensures st.sessions.Present? ==> |r| == |st.sessions.sessions|
    ensures st.sessions.Present? ==> multiset(r) == multiset(MetadataOf(st.sessions.sessions))
    ensures forall i, j | 0 <= i < j < |r| :: r[i].lastActivityAt >= r[j].lastActivityAt
  {
    match st.sessions
    case Present(xs) =>
      var r := StableSort.Sort(MetadataOf(xs), RecencyKey);
      assert forall i, j | 0 <= i < j < |r| :: RecencyKey(r[i]) <= RecencyKey(r[j]);
      r
    case _ => []
  }

  /** Every listing entry is the projection of a stored session, and every stored
      session is listed. */
  lemma MetadataListsEverySession(st: Store)
    requires st.sessions.Present?
    ensures var r := GetAllSessionsMetadata(st);
      var xs := st.sessions.sessions;
      && (forall i | 0 <= i < |xs| :: ToMetadata(xs[i]) in r)
      && (forall m | m in r :: exists i | 0 <= i < |xs| :: m == ToMetadata(xs[i]))
  {
    var xs := st.sessions.sessions;
    var r := GetAllSessionsMetadata(st);
    var ms := MetadataOf(xs);
    forall i | 0 <= i < |xs|
      ensures ToMetadata(xs[i]) in r
    {
      assert ms[i] in multiset(ms);
    }
    forall m | m in r
      ensures exists i | 0 <= i < |xs| :: m == ToMetadata(xs[i])
    {
      assert m in multiset(r);
      assert m in ms;
      var i :| 0 <= i < |ms| && ms[i] == m;
    }
  }

  /** Sessions with equal activity time are listed in their stored order, and the
      listing is the only arrangement that is most-recent-first with that property:
      whichever stable sort the JavaScript engine uses produces it. */
  lemma MetadataListingIsTheStableOrder(st: Store, ys: seq<SessionMetadata>)
    requires st.sessions.Present?
    ensures StableSort.KeepsEqualKeyOrder(MetadataOf(st.sessions.sessions), GetAllSessionsMetadata(st), RecencyKey)
    ensures StableSort.SortedBy(ys, RecencyKey)
        && StableSort.KeepsEqualKeyOrder(MetadataOf(st.sessions.sessions), ys, RecencyKey)
      ==> ys == GetAllSessionsMetadata(st)
  {
    var ms := MetadataOf(st.sessions.sessions);
    StableSort.SortIsStable(ms, RecencyKey);
    if StableSort.SortedBy(ys, RecencyKey) && StableSort.KeepsEqualKeyOrder(ms, ys, RecencyKey) {
      StableSort.StableSortIsUnique(ms, ys, RecencyKey);
    }
  }

  // ---------------------------------------------------------------- lookup

  /** The position of the first session with identifier `id` (`findIndex`). */
  function FindIndex(xs: seq<Session>, id: string): (r: Option<nat>)
    ensures r.None? <==> IdAbsent(xs, id)
    ensures r.Some? ==> r.value < |xs| && xs[r.value].id == id
    ensures r.Some? ==> IdAbsent(xs[..r.value], id)
    decreases |xs|
  {
    if |xs| == 0 then None
    else if xs[0].id == id then Some(0)
    else
      match FindIndex(xs[1..], id)
      case None => None
      case Some(k) =>
        assert xs[..k + 1] == [xs[0]] + xs[1..][..k];
        Some(k + 1)
  }

  /** `getSession`: the first stored session with identifier `id`, if any; an absent or
      unreadable collection finds nothing. */
  function GetSession(st: Store, id: string): (r: Option<Session>)
    ensures r.None? <==> !st.sessions.Present? || IdAbsent(st.sessions.sessions, id)
    ensures r.Some? ==> r.value.id == id
    ensures r.Some? ==> exists i | 0 <= i < |st.sessions.sessions| ::
      st.sessions.sessions[i] == r.value && IdAbsent(st.sessions.sessions[..i], id)
  {
    match st.sessions
    case Present(xs) =>
      (match FindIndex(xs, id)
       case Some(i) => Some(xs[i])
       case None => None)
    case _ => None
  }

  // ---------------------------------------------------------------- saving

  /** The sessions kept when a collection outgrows the cap: stably sorted oldest
      first, the last `MAX_SESSIONS`. */
  function Evict(xs: seq<Session>): (kept: seq<Session>)
    ensures |xs| <= MAX_SESSIONS ==> kept == xs
    ensures |xs| > MAX_SESSIONS ==> |kept| == MAX_SESSIONS && StableSort.SortedBy(kept, ActivityKey)
    ensures multiset(kept) <= multiset(xs)
  {
    if |xs| > MAX_SESSIONS then
      var sorted := StableSort.Sort(xs, ActivityKey);
      var cut := |sorted| - MAX_SESSIONS;
      assert sorted == sorted[..cut] + sorted[cut..];
      sorted[cut..]
    else xs
  }

  /** The sessions eviction drops. */
  function Evicted(xs: seq<Session>): seq<Session> {
    if |xs| > MAX_SESSIONS then
      var sorted := StableSort.Sort(xs, ActivityKey);
      sorted[..|sorted| - MAX_SESSIONS]
    else []
  }

  /** Eviction splits the collection into the kept and the dropped sessions, and no
      dropped session is more recently active than a kept one. */
  lemma EvictionDropsOldest(xs: seq<Session>)
    ensures multiset(Evict(xs)) + multiset(Evicted(xs)) == multiset(xs)
    ensures forall i, j | 0 <= i < |Evicted(xs)| && 0 <= j < |Evict(xs)| ::
      Evicted(xs)[i].lastActivityAt <= Evict(xs)[j].lastActivityAt
  {
    var kept, dropped := Evict(xs), Evicted(xs);
    if |xs| > MAX_SESSIONS {
      var sorted := StableSort.Sort(xs, ActivityKey);
      SidesOfCut(sorted, |sorted| - MAX_SESSIONS, dropped, kept);
    } else {
      assert dropped == [] && kept == xs;
    }
  }

  /** Cutting a collection sorted by activity splits its sessions between the two
      sides, and no session before the cut is more recently active than one after it. */
  lemma SidesOfCut(sorted: seq<Session>, cut: nat, before: seq<Session>, after: seq<Session>)
    requires cut <= |sorted| && StableSort.SortedBy(sorted, ActivityKey)
    requires before == sorted[..cut] && after == sorted[cut..]
    ensures multiset(after) + multiset(before) == multiset(sorted)
    ensures forall i, j | 0 <= i < |before| && 0 <= j < |after| ::
      before[i].lastActivityAt <= after[j].lastActivityAt
  {
    assert sorted == before + after;
    forall i, j | 0 <= i < |before| && 0 <= j < |after|
      ensures before[i].lastActivityAt <= after[j].lastActivityAt
    {
      assert before[i] == sorted[i] && after[j] == sorted[cut + j];
      assert ActivityKey(sorted[i]) <= ActivityKey(sorted[cut + j]);
    }
  }

  /** The collection after storing `s`: the first session with its identifier is
      replaced in place; otherwise `s` is appended and the collection evicted. */
  function Upsert(xs: seq<Session>, s: Session): seq<Session> {
    match FindIndex(xs, s.id)
    case Some(i) => xs[i := s]
    case None => Evict(xs + [s])
  }

  /** `saveSession`: upsert into the stored collection (an absent key counts as empty).
      An unreadable collection makes the save fail; the current id is untouched. */
  function SaveSession(st: Store, s: Session): (r: Result<Store, StorageError>)
    ensures r.Failure? <==> st.sessions.Unreadable?
    ensures r.Success? ==> r.value.current == st.current && r.value.sessions.Present?
    ensures r.Success? ==> |r.value.sessions.sessions| <= |StoredOrEmpty(st.sessions)| + 1
  {
    if st.sessions.Unreadable? then Failure(CollectionUnreadable)
    else
      var xs := StoredOrEmpty(st.sessions);
      assert |Upsert(xs, s)| <= |xs| + 1 by {
        if FindIndex(xs, s.id).None? {
          assert |multiset(Evict(xs + [s]))| <= |multiset(xs + [s])|;
        }
      }
      Success(Store(Present(Upsert(xs, s)), st.current))
  }

  /** Saving a session whose identifier is stored replaces its first occurrence in
      place: nothing is evicted, nothing else moves, and looking the identifier up
      afterwards returns the saved session. */
  lemma SaveExistingReplacesInPlace(st: Store, s: Session)
    requires st.sessions.Present? && !IdAbsent(st.sessions.sessions, s.id)
    ensures var xs := st.sessions.sessions;
      var i := FindIndex(xs, s.id).value;
      var r := SaveSession(st, s);
      && r.Success?
      && r.value.sessions.Present?
      && |r.value.sessions.sessions| == |xs|
      && r.value.sessions.sessions[i] == s
      && (forall j | 0 <= j < |xs| && j != i :: r.value.sessions.sessions[j] == xs[j])
      && GetSession(r.value, s.id) == Some(s)
  {
    var xs := st.sessions.sessions;
    var i := FindIndex(xs, s.id).value;
    var ys := xs[i := s];
    assert ys[..i] == xs[..i];
    FindIndexIsFirst(ys, s.id, i);
  }

  /** The first position holding `id` is the one `FindIndex` returns. */
  lemma FindIndexIsFirst(xs: seq<Session>, id: string, i: nat)
    requires i < |xs| && xs[i].id == id && IdAbsent(xs[..i], id)
    ensures FindIndex(xs, id) == Some(i)
  {
  }

  /** Saving a session with a new identifier appends it; once the collection exceeds
      the cap it is sorted oldest first and only the `MAX_SESSIONS` most recent are
      kept, so no dropped session is more recent than a kept one. */
  lemma SaveNewAppendsThenEvicts(st: Store, s: Session)
    requires !st.sessions.Unreadable? && IdAbsent(StoredOrEmpty(st.sessions), s.id)
    ensures var xs := StoredOrEmpty(st.sessions);
      var ys := SaveSession(st, s).value.sessions.sessions;
      && (|xs| < MAX_SESSIONS ==> ys == xs + [s])
      && (|xs| >= MAX_SESSIONS ==> |ys| == MAX_SESSIONS)
      && multiset(ys) + multiset(Evicted(xs + [s])) == multiset(xs + [s])
      && (forall i, j | 0 <= i < |Evicted(xs + [s])| && 0 <= j < |ys| ::
            Evicted(xs + [s])[i].lastActivityAt <= ys[j].lastActivityAt)
  {
    var xs := StoredOrEmpty(st.sessions);
    assert FindIndex(xs, s.id).None?;
    EvictionDropsOldest(xs + [s]);
  }

  /** A newly saved session survives its own eviction exactly when fewer than
      `MAX_SESSIONS` stored sessions are strictly more recently active: ties go to the
      later-inserted session, because the sort is stable and the new one is last. */
  lemma NewSessionSurvivesIff(st: Store, s: Session)
    requires !st.sessions.Unreadable? && IdAbsent(StoredOrEmpty(st.sessions), s.id)
    ensures var xs := StoredOrEmpty(st.sessions);
      var after := SaveSession(st, s).value;
      && ((s in after.sessions.sessions) <==>
          (StableSort.CountAbove(xs, ActivityKey, s.lastActivityAt) < MAX_SESSIONS))
      && (GetSession(after, s.id) == Some(s) <==> s in after.sessions.sessions)
  {
    var xs := StoredOrEmpty(st.sessions);
    var ys := SaveSession(st, s).value.sessions.sessions;
    assert FindIndex(xs, s.id).None?;
    assert ys == Evict(xs + [s]);
    assert s !in xs by {
      assert forall j | 0 <= j < |xs| :: xs[j] != s;
    }
    EvictedKeepsNewIff(xs, s);
    SessionWithIdIsUnique(xs, s, ys);
  }

  /** Appending a session not yet stored and evicting keeps it exactly when fewer than
      `MAX_SESSIONS` stored sessions are strictly more recently active. */
  lemma EvictedKeepsNewIff(xs: seq<Session>, s: Session)
    requires s !in xs
    ensures s in Evict(xs + [s])
      <==> StableSort.CountAbove(xs, ActivityKey, s.lastActivityAt) < MAX_SESSIONS
  {
    var all := xs + [s];
    StableSort.CountAboveBound(xs, ActivityKey, s.lastActivityAt);
    if |all| > MAX_SESSIONS {
      StableSort.SortTailKeepsLastIff(xs, s, ActivityKey, MAX_SESSIONS);
    } else {
      assert Evict(all)[|xs|] == s;
    }
  }

  /** After a new identifier is saved, the only session carrying it is the saved one. */
  lemma SessionWithIdIsUnique(xs: seq<Session>, s: Session, ys: seq<Session>)
    requires IdAbsent(xs, s.id)
    requires multiset(ys) <= multiset(xs + [s])
    ensures forall j | 0 <= j < |ys| && ys[j].id == s.id :: ys[j] == s
    ensures GetSession(Store(Present(ys), None), s.id) == (if s in ys then Some(s) else None)
  {
    forall j | 0 <= j < |ys| && ys[j].id == s.id
      ensures ys[j] == s
    {
      assert ys[j] in multiset(xs + [s]);
      assert ys[j] in xs + [s];
    }
    if s in ys {
      var j :| 0 <= j < |ys| && ys[j] == s;
      assert !IdAbsent(ys, s.id);
    } else {
      assert IdAbsent(ys, s.id);
    }
  }

  /** A new session at least as recent as every stored one is always kept. */
  lemma NewestSessionSurvives(st: Store, s: Session)
    requires !st.sessions.Unreadable? && IdAbsent(StoredOrEmpty(st.sessions), s.id)
    requires forall j | 0 <= j < |StoredOrEmpty(st.sessions)| ::
      StoredOrEmpty(st.sessions)[j].lastActivityAt <= s.lastActivityAt
    ensures GetSession(SaveSession(st, s).value, s.id) == Some(s)
  {
    var xs := StoredOrEmpty(st.sessions);
    StableSort.CountAboveNone(xs, ActivityKey, s.lastActivityAt);
    NewSessionSurvivesIff(st, s);
  }

  /** Sorting keeps identifiers distinct. */
  lemma {:induction false} SortKeepsDistinctIds(xs: seq<Session>)
    requires DistinctIds(xs)
    ensures DistinctIds(StableSort.Sort(xs, ActivityKey))
    decreases |xs|
  {
    if |xs| > 0 {
      var init, x := xs[..|xs| - 1], xs[|xs| - 1];
      assert xs == init + [x];
      var ys := StableSort.Sort(init, ActivityKey);
      SortKeepsDistinctIds(init);
      StableSort.SortStep(init, x, ActivityKey);
      var p := StableSort.InsertPos(ys, x, ActivityKey);
      assert IdAbsent(init, x.id) by {
        forall k | 0 <= k < |init|
          ensures init[k].id != x.id
        {
          assert xs[k] == init[k];
        }
      }
      RearrangedKeepsIdAbsent(init, ys, x.id);
      InsertKeepsDistinctIds(ys, x, p);
    }
  }

  /** An identifier missing from a collection is missing from any rearrangement of it. */
  lemma RearrangedKeepsIdAbsent(xs: seq<Session>, ys: seq<Session>, id: string)
    requires multiset(ys) == multiset(xs) && IdAbsent(xs, id)
    ensures IdAbsent(ys, id)
  {
    forall j | 0 <= j < |ys|
      ensures ys[j].id != id
    {
      assert ys[j] in multiset(xs);
      var k :| 0 <= k < |xs| && xs[k] == ys[j];
    }
  }

  /** Putting a session with a new identifier anywhere keeps identifiers distinct. */
  lemma InsertKeepsDistinctIds(ys: seq<Session>, x: Session, p: nat)
    requires p <= |ys| && DistinctIds(ys) && IdAbsent(ys, x.id)
    ensures DistinctIds(ys[..p] + [x] + ys[p..])
  {
    var r := ys[..p] + [x] + ys[p..];
    forall i, j | 0 <= i < j < |r|
      ensures r[i].id != r[j].id
    {
      if j < p {
        assert r[i] == ys[i] && r[j] == ys[j];
      } else if i > p {
        assert r[i] == ys[i - 1] && r[j] == ys[j - 1];
      } else if i == p {
        assert r[i] == x && r[j] == ys[j - 1];
      } else if j == p {
        assert r[j] == x && r[i] == ys[i];
      } else {
        assert r[i] == ys[i] && r[j] == ys[j - 1];
      }
    }
  }

  /** A contiguous part of a collection with distinct identifiers has them too. */
  lemma SliceKeepsDistinctIds(xs: seq<Session>, lo: nat)
    requires lo <= |xs| && DistinctIds(xs)
    ensures DistinctIds(xs[lo..])
  {
    forall i, j | 0 <= i < j < |xs[lo..]|
      ensures xs[lo..][i].id != xs[lo..][j].id
    {
      assert xs[lo..][i] == xs[lo + i] && xs[lo..][j] == xs[lo + j];
    }
  }

  /** Saving keeps the store invariant: the collection stays within the cap and its
      identifiers stay distinct. */
  lemma SavePreservesValid(st: Store, s: Session)
    requires Valid(st) && !st.sessions.Unreadable?
    ensures Valid(SaveSession(st, s).value)
  {
    var xs := StoredOrEmpty(st.sessions);
    match FindIndex(xs, s.id)
    case Some(i) =>
      ReplaceKeepsDistinctIds(xs, i, s);
    case None =>
      AppendEvictKeepsDistinctIds(xs, s);
  }

  /** Replacing a session by one with the same identifier keeps identifiers distinct. */
  lemma ReplaceKeepsDistinctIds(xs: seq<Session>, i: nat, s: Session)
    requires i < |xs| && xs[i].id == s.id && DistinctIds(xs)
    ensures DistinctIds(xs[i := s])
  {
    var ys := xs[i := s];
    forall a, b | 0 <= a < b < |ys|
      ensures ys[a].id != ys[b].id
    {
      assert xs[a].id == ys[a].id && xs[b].id == ys[b].id;
    }
  }

  /** Appending a new identifier and evicting keeps identifiers distinct. */
  lemma AppendEvictKeepsDistinctIds(xs: seq<Session>, s: Session)
    requires DistinctIds(xs) && IdAbsent(xs, s.id)
    ensures DistinctIds(Evict(xs + [s]))
  {
    var all := xs + [s];
    assert DistinctIds(all) by {
      InsertKeepsDistinctIds(xs, s, |xs|);
      assert xs[..|xs|] + [s] + xs[|xs|..] == all;
    }
    if |all| > MAX_SESSIONS {
      SortKeepsDistinctIds(all);
      var sorted := StableSort.Sort(all, ActivityKey);
      SliceKeepsDistinctIds(sorted, |sorted| - MAX_SESSIONS);
    }
  }

  /** Saves applied one after another, stopping at the first failure. */
  function SaveAll(st: Store, ss: seq<Session>): Result<Store, StorageError>
    decreases |ss|
  {
    if |ss| == 0 then Success(st)
    else
      match SaveSession(st, ss[0])
      case Failure(e) => Failure(e)
      case Success(st') => SaveAll(st', ss[1..])
  }

  /** However many sessions are saved, the collection never exceeds the cap. */
  lemma {:induction false} SaveAllStaysWithinCap(st: Store, ss: seq<Session>)
    requires Valid(st)
    ensures SaveAll(st, ss).Success? ==> Valid(SaveAll(st, ss).value)
    ensures SaveAll(st, ss).Success? && SaveAll(st, ss).value.sessions.Present?
      ==> |SaveAll(st, ss).value.sessions.sessions| <= MAX_SESSIONS
    decreases |ss|
  {
    if |ss| > 0 && !st.sessions.Unreadable? {
      SavePreservesValid(st, ss[0]);
      SaveAllStaysWithinCap(SaveSession(st, ss[0]).value, ss[1..]);
    }
  }

  // ---------------------------------------------------------------- deleting

  /** The sessions whose identifier is not `id`, in their original order (`filter`). */
  function RemoveId(xs: seq<Session>, id: string): (r: seq<Session>)
    ensures forall s :: s in r <==> s in xs && s.id != id
    ensures IdAbsent(r, id)
    ensures |r| <= |xs|
    ensures IdAbsent(xs, id) ==> r == xs
    decreases |xs|
  {
    if |xs| == 0 then []
    else
      var rest := RemoveId(xs[1..], id);
      assert xs == [xs[0]] + xs[1..];
      if xs[0].id == id then rest else [xs[0]] + rest
  }

  /** Removal works piecewise, so the survivors keep their relative order. */
  lemma {:induction false} RemoveIdKeepsOrder(a: seq<Session>, b: seq<Session>, id: string)
    ensures RemoveId(a + b, id) == RemoveId(a, id) + RemoveId(b, id)
    decreases |a|
  {
    if |a| == 0 {
      assert a + b == b;
    } else {
      assert (a + b)[1..] == a[1..] + b;
      RemoveIdKeepsOrder(a[1..], b, id);
    }
  }

  /** `deleteSession`: with no collection stored nothing changes, not even the current id;
      an unreadable collection makes the delete fail; otherwise every session with
      identifier `id` is removed and the current id is cleared exactly when it is `id`. */
  function DeleteSession(st: Store, id: string): (r: Result<Store, StorageError>)
    ensures st.sessions.Absent? ==> r == Success(st)
    ensures r.Failure? <==> st.sessions.Unreadable?
    ensures st.sessions.Present? ==> r.Success? && r.value.sessions.Present?
    ensures st.sessions.Present? ==> (r.value.current.None? <==> st.current.None? || st.current == Some(id))
    ensures st.sessions.Present? && st.current != Some(id) ==> r.value.current == st.current
    ensures st.sessions.Present? ==> GetSession(r.value, id).None?
  {
    match st.sessions
    case Absent => Success(st)
    case Unreadable => Failure(CollectionUnreadable)
    case Present(xs) =>
      var current := if st.current == Some(id) then None else st.current;
      Success(Store(Present(RemoveId(xs, id)), current))
  }

  /** Deleting leaves every other session where it was and keeps the store invariant. */
  lemma DeleteKeepsOthers(st: Store, id: string)
    requires st.sessions.Present?
    ensures var ys := DeleteSession(st, id).value.sessions.sessions;
      var xs := st.sessions.sessions;
      && (forall s | s in xs && s.id != id :: s in ys)
      && (forall other | other != id :: GetSession(DeleteSession(st, id).value, other) == GetSession(st, other))
    ensures Valid(st) ==> Valid(DeleteSession(st, id).value)
  {
    var xs := st.sessions.sessions;
    var after := DeleteSession(st, id).value;
    forall other | other != id
      ensures GetSession(after, other) == GetSession(st, other)
    {
      RemoveIdFindsSame(xs, id, other);
    }
    if Valid(st) {
      RemoveIdKeepsDistinct(xs, id);
    }
  }

  /** Removing identifier `id` does not change which session another identifier finds. */
  lemma {:induction false} RemoveIdFindsSame(xs: seq<Session>, id: string, other: string)
    requires other != id
    ensures GetSession(Store(Present(RemoveId(xs, id)), None), other)
         == GetSession(Store(Present(xs), None), other)
    decreases |xs|
  {
    if |xs| > 0 {
      RemoveIdFindsSame(xs[1..], id, other);
      var rest := RemoveId(xs[1..], id);
      if xs[0].id != id && xs[0].id != other {
        var r := [xs[0]] + rest;
        assert r[1..] == rest;
      }
    }
  }

  /** Removal keeps identifiers distinct. */
  lemma {:induction false} RemoveIdKeepsDistinct(xs: seq<Session>, id: string)
    requires DistinctIds(xs)
    ensures DistinctIds(RemoveId(xs, id))
    decreases |xs|
  {
    if |xs| > 0 {
      assert DistinctIds(xs[1..]) by {
        SliceKeepsDistinctIds(xs, 1);
      }
      RemoveIdKeepsDistinct(xs[1..], id);
      var rest := RemoveId(xs[1..], id);
      if xs[0].id != id {
        forall j | 0 <= j < |rest|
          ensures rest[j].id != xs[0].id
        {
          assert rest[j] in xs[1..];
        }
        InsertKeepsDistinctIds(rest, xs[0], 0);
        assert rest[..0] + [xs[0]] + rest[0..] == [xs[0]] + rest;
      }
    }
  }

  // ---------------------------------------------------------------- current session

  /** `getCurrentSessionId`: the stored current id, if any. */
  function GetCurrentSessionId(st: Store): Option<string> {
    st.current
  }

  /** `setCurrentSessionId`: `id` becomes the current id; the collection is untouched. */
  function SetCurrentSessionId(st: Store, id: string): (r: Store)
    ensures GetCurrentSessionId(r) == Some(id)
    ensures r.sessions == st.sessions
  {
    st.(current := Some(id))
  }

  /** `clearAllSessions`: both keys removed. */
  function ClearAllSessions(st: Store): (r: Store)
    ensures GetAllSessionsMetadata(r) == []
    ensures forall id :: GetSession(r, id).None?
    ensures GetCurrentSessionId(r).None?
    ensures Valid(r)
  {
    Store(Absent, None)
  }

  /** What `getCurrentSessionId` reads after each writer: the identifier just set;
      nothing after clearing; the same identifier after a save; after a delete,
      nothing when the deleted identifier was current and a collection was stored,
      otherwise the same identifier as before. */
  lemma CurrentSessionIdAfterWrites(st: Store, id: string, s: Session)
    ensures GetCurrentSessionId(SetCurrentSessionId(st, id)) == Some(id)
    ensures GetCurrentSessionId(ClearAllSessions(st)).None?
    ensures SaveSession(st, s).Success?
      ==> GetCurrentSessionId(SaveSession(st, s).value) == GetCurrentSessionId(st)
    ensures DeleteSession(st, id).Success?
      ==> (GetCurrentSessionId(DeleteSession(st, id).value)
        == if st.sessions.Present? && GetCurrentSessionId(st) == Some(id) then None
           else GetCurrentSessionId(st))
  {
  }

  /** After clearing, deleting changes nothing, and the first save starts a fresh list. */
  lemma ClearedStoreStartsEmpty(st: Store, s: Session)
    ensures DeleteSession(ClearAllSessions(st), s.id) == Success(ClearAllSessions(st))
    ensures SaveSession(ClearAllSessions(st), s) == Success(Store(Present([s]), None))
  {
    assert [] + [s] == [s];
  }

  // ---------------------------------------------------------------- creating

  /** `title || 'New Session'`: a missing or empty title becomes the default label. */
  function NewSessionTitle(title: Option<string>): (t: string)
    ensures title.None? || title.value == "" ==> t == SessionTitle.DEFAULT_TITLE
    ensures title.Some? && title.value != "" ==> t == title.value
  {
    match title
    case Some(t) => if t == "" then SessionTitle.DEFAULT_TITLE else t
    case None => SessionTitle.DEFAULT_TITLE
  }

  /** `createNewSession`, with the clock reading `now` and the fresh identifier `id`
      as parameters: an empty session is saved under the eviction rule and becomes
      current. A failed save fails the whole operation before the current id is set. */
  function CreateNewSession(st: Store, title: Option<string>, id: string, now: int)
    : (r: Result<(Store, Session), StorageError>)
    ensures r.Failure? <==> st.sessions.Unreadable?
    ensures r.Success? ==> var (after, s) := r.value;
      && s.id == id && s.title == NewSessionTitle(title)
      && s.messages == [] && s.promptCount == 0 && s.firstPromptInWindow.None?
      && s.createdAt == now && s.lastActivityAt == now
      && GetCurrentSessionId(after) == Some(id)
      && after.sessions == SaveSession(st, s).value.sessions
  {
    var s := Session(id, NewSessionTitle(title), now, now, [], 0, None);
    match SaveSession(st, s)
    case Failure(e) => Failure(e)
    case Success(saved) => Success((SetCurrentSessionId(saved, id), s))
  }

  /** With a fresh identifier and a clock not behind any stored activity, the new
      session is stored, current, and found by its identifier; the store stays valid. */
  lemma CreatedSessionIsCurrentAndStored(st: Store, title: Option<string>, id: string, now: int)
    requires Valid(st) && !st.sessions.Unreadable? && IdAbsent(StoredOrEmpty(st.sessions), id)
    requires forall j | 0 <= j < |StoredOrEmpty(st.sessions)| ::
      StoredOrEmpty(st.sessions)[j].lastActivityAt <= now
    ensures var (after, s) := CreateNewSession(st, title, id, now).value;
      && GetSession(after, id) == Some(s)
      && GetCurrentSessionId(after) == Some(id)
      && Valid(after)
  {
    var s := Session(id, NewSessionTitle(title), now, now, [], 0, None);
    NewestSessionSurvives(st, s);
    SavePreservesValid(st, s);
  }

  /** If the clock is behind `MAX_SESSIONS` stored sessions, the new session is evicted
      by its own insertion yet still made current: the current id is that of a missing session. */
  lemma CreatedSessionCanBeEvicted(st: Store, title: Option<string>, id: string, now: int)
    requires !st.sessions.Unreadable? && IdAbsent(StoredOrEmpty(st.sessions), id)
    requires StableSort.CountAbove(StoredOrEmpty(st.sessions), ActivityKey, now) >= MAX_SESSIONS
    ensures var (after, s) := CreateNewSession(st, title, id, now).value;
      && GetCurrentSessionId(after) == Some(id)
      && GetSession(after, id).None?
  {
    var s := Session(id, NewSessionTitle(title), now, now, [], 0, None);
    NewSessionSurvivesIff(st, s);
    SessionWithIdIsUnique(StoredOrEmpty(st.sessions), s, SaveSession(st, s).value.sessions.sessions);
  }
}

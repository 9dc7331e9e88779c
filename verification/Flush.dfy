/** Flushing appended files from many processes (crates/alt-odb/src/lib.rs).

    Writers append records to three files under one lock and then flush. A flush asks for the
    records it has written or read to be durable. It is done at once when the durable marker
    covers them. Otherwise it takes the sync lock, looks again, notes the lengths of the files,
    syncs one file after the other and publishes the noted lengths as the new marker, while others
    go on appending. Processes may be killed anywhere, also in mid-record; whoever opens the files
    or takes the write lock next cuts the torn record off. The power may fail: what was not synced
    is then lost, and with it perhaps the last markers.

    A noted length may lie in the middle of a record that is cut off later, so the marker may
    exceed the file. Records of the blob map and of the object map have a fixed length, and no new
    record fits below such a marker: what a flush has acknowledged of these files is never lost.
    Records of the pack differ in length. There a marker that exceeds the file by the shortest
    record or more makes later flushes acknowledge what was never synced. */
module Flush {
  import opened Endian
  import opened Octets

  /** A file, the places where its header and its whole records end, and how much of it is known
      to be on disk. */
  datatype File = File(data: Bytes, ends: seq<nat>, synced: nat)

  /** A length for each file: pack, blob map, object map. */
  type Lens = s: seq<nat> | |s| == 3 witness [0, 0, 0]

  /** The contents that a flush asks to be durable. */
  type Snapshot = s: seq<Bytes> | |s| == 3 witness [[], [], []]

  datatype Owner = Nobody | Owner(pid: nat)

  /** Where a process is: reading the files when it opens them or has taken the write lock, or in
      its flush. */
  datatype Place =
    | Opening(next: nat)
    | Entering(next: nat)
    | Idle
    | Flushing(snap: Snapshot)
    | Waiting(snap: Snapshot)
    | Locked(snap: Snapshot)
    | Noting(snap: Snapshot, noted: seq<nat>)
    | Syncing(snap: Snapshot, eofs: Lens, done: nat)
    | Leaving(snap: Snapshot, ok: bool)

  /** A process: how far it has read and written each file, and where it is. */
  datatype Proc = Proc(view: Lens, place: Place)

  datatype State = State(files: seq<File>, marker: Lens, writer: Owner, syncer: Owner,
                         procs: map<nat, Proc>, acked: seq<Snapshot>)

  datatype Action =
    | Open(pid: nat)
    | Acquire(pid: nat)
    | CatchUp(pid: nat)
    | KilledInCut(pid: nat)
    | Append(pid: nat, file: nat, bytes: Bytes, whole: bool)
    | Release(pid: nat)
    | Flush(pid: nat)
    | FastPath(pid: nat)
    | Lock(pid: nat)
    | LookAgain(pid: nat)
    | Note(pid: nat)
    | Fsync(pid: nat)
    | Publish(pid: nat)
    | Fail(pid: nat)
    | Leave(pid: nat)
    | Kill(pid: nat)
    | PowerLoss(lens: Lens, marker: Lens)

  const HEADER: nat := 5

  const NEW_FILE := File([0, 0, 0, 0, 0], [HEADER], HEADER)

  function Init(): State {
    State([NEW_FILE, NEW_FILE, NEW_FILE], [0, 0, 0], Nobody, Nobody, map[], [])
  }

  // ---- records ----

  /** The length of the shortest record: the header of a pack record, and the fixed length of the
      records of both maps. */
  function Least(file: nat): nat {
    if file == 0 then 41 else if file == 1 then 80 else 82
  }

  /** `n` bytes may be a whole record. */
  predicate IsWhole(file: nat, n: nat) {
    if file == 0 then n >= Least(0) else n == Least(file)
  }

  /** `n` bytes may be an unfinished record. */
  predicate IsPart(file: nat, n: nat) {
    file == 0 || n < Least(file)
  }

  /** Where the whole records end. */
  function End(f: File): nat {
    if f.ends == [] then 0 else f.ends[|f.ends| - 1]
  }

  function Torn(f: File): int {
    |f.data| - End(f)
  }

  /** The ends that lie within `n` bytes. */
  function EndsWithin(ends: seq<nat>, n: nat): seq<nat> {
    if ends == [] || ends[|ends| - 1] <= n then ends else EndsWithin(ends[..|ends| - 1], n)
  }

  function CutFile(f: File, n: nat): File
    requires n <= |f.data|
  {
    File(f.data[..n], EndsWithin(f.ends, n), if f.synced <= n then f.synced else n)
  }

  /** The file without its torn record; if there was one, the cut is synced. */
  function Recovered(f: File): File
    requires End(f) <= |f.data|
  {
    if End(f) < |f.data| then File(f.data[..End(f)], f.ends, End(f)) else f
  }

  /** The same, but the process was killed before it could sync the cut. */
  function CutOnly(f: File): File
    requires End(f) <= |f.data|
  {
    File(f.data[..End(f)], f.ends, if f.synced <= End(f) then f.synced else End(f))
  }

  function Extended(f: File, bytes: Bytes, whole: bool): File {
    File(f.data + bytes, if whole then f.ends + [|f.data| + |bytes|] else f.ends, f.synced)
  }

  // ---- steps ----

  predicate Covers(durable: Lens, snap: Snapshot) {
    forall k :: 0 <= k < 3 ==> durable[k] >= |snap[k]|
  }

  predicate Fits(files: seq<File>, view: Lens)
    requires |files| == 3
  {
    forall k :: 0 <= k < 3 ==> view[k] <= |files[k].data|
  }

  function Seen(files: seq<File>, view: Lens): Snapshot
    requires |files| == 3 && Fits(files, view)
  {
    [files[0].data[..view[0]], files[1].data[..view[1]], files[2].data[..view[2]]]
  }

  predicate At(s: State, pid: nat, place: Place) {
    pid in s.procs && s.procs[pid].place == place
  }

  predicate CatchingUp(place: Place) {
    (place.Opening? || place.Entering?) && place.next < 3
  }

  predicate NobodyOpens(s: State) {
    forall p :: p in s.procs ==> !s.procs[p].place.Opening?
  }

  /** Opening takes the write lock shared, writing takes it alone. */
  predicate Enabled(s: State, a: Action)
    requires |s.files| == 3
  {
    match a
    case Open(pid) => pid !in s.procs && s.writer == Nobody
    case Acquire(pid) => At(s, pid, Idle) && s.writer == Nobody && NobodyOpens(s)
    case CatchUp(pid) => pid in s.procs && CatchingUp(s.procs[pid].place) && Torn(s.files[s.procs[pid].place.next]) >= 0
    case KilledInCut(pid) => pid in s.procs && CatchingUp(s.procs[pid].place) && Torn(s.files[s.procs[pid].place.next]) >= 0
    case Append(pid, k, bytes, whole) =>
      && At(s, pid, Idle) && s.writer == Owner(pid) && k < 3 && Torn(s.files[k]) >= 0
      && var n := Torn(s.files[k]) + |bytes|;
         if whole then IsWhole(k, n) else IsPart(k, n)
    case Release(pid) => At(s, pid, Idle) && s.writer == Owner(pid)
    case Flush(pid) => At(s, pid, Idle) && Fits(s.files, s.procs[pid].view)
    case FastPath(pid) => pid in s.procs && s.procs[pid].place.Flushing?
    case Lock(pid) => pid in s.procs && s.procs[pid].place.Waiting? && s.syncer == Nobody
    case LookAgain(pid) => pid in s.procs && s.procs[pid].place.Locked?
    case Note(pid) => pid in s.procs && s.procs[pid].place.Noting? && |s.procs[pid].place.noted| <= 3
    case Fsync(pid) => pid in s.procs && s.procs[pid].place.Syncing? && s.procs[pid].place.done < 3
    case Publish(pid) => pid in s.procs && s.procs[pid].place.Syncing? && s.procs[pid].place.done == 3
    case Fail(pid) => pid in s.procs && (s.procs[pid].place.Locked? || s.procs[pid].place.Noting? || s.procs[pid].place.Syncing?)
    case Leave(pid) => pid in s.procs && s.procs[pid].place.Leaving?
    case Kill(pid) => pid in s.procs
    case PowerLoss(lens, marker) =>
      forall k :: 0 <= k < 3 ==> s.files[k].synced <= lens[k] <= |s.files[k].data| && marker[k] <= s.marker[k]
  }

  function Free(owner: Owner, pid: nat): Owner {
    if owner == Owner(pid) then Nobody else owner
  }

  function Put(s: State, pid: nat, place: Place): State
    requires pid in s.procs
  {
    s.(procs := s.procs[pid := s.procs[pid].(place := place)])
  }

  /** One file read, on to the next. */
  function Further(place: Place): Place
    requires CatchingUp(place)
  {
    if place.next == 2 then Idle else if place.Opening? then Opening(place.next + 1) else Entering(place.next + 1)
  }

  function Gone(s: State, pid: nat): State {
    s.(procs := s.procs - {pid}, writer := Free(s.writer, pid), syncer := Free(s.syncer, pid))
  }

  function Do(s: State, a: Action): (r: State)
    requires |s.files| == 3 && Enabled(s, a)
    ensures |r.files| == 3
  {
    match a
    case Open(pid) => s.(procs := s.procs[pid := Proc([HEADER, HEADER, HEADER], Opening(0))])
    case Acquire(pid) => Put(s, pid, Entering(0)).(writer := Owner(pid))
    case CatchUp(pid) =>
      var p := s.procs[pid];
      var k := p.place.next;
      s.(files := s.files[k := Recovered(s.files[k])],
         procs := s.procs[pid := Proc(p.view[k := End(s.files[k])], Further(p.place))])
    case KilledInCut(pid) =>
      var k := s.procs[pid].place.next;
      Gone(s.(files := s.files[k := CutOnly(s.files[k])]), pid)
    case Append(pid, k, bytes, whole) =>
      var f := Extended(s.files[k], bytes, whole);
      var view := s.procs[pid].view;
      s.(files := s.files[k := f], procs := s.procs[pid := Proc(if whole then view[k := |f.data|] else view, Idle)])
    case Release(pid) => s.(writer := Nobody)
    case Flush(pid) => Put(s, pid, Flushing(Seen(s.files, s.procs[pid].view))).(writer := Free(s.writer, pid))
    case FastPath(pid) =>
      var snap := s.procs[pid].place.snap;
      if Covers(s.marker, snap) then Put(s, pid, Idle).(acked := s.acked + [snap]) else Put(s, pid, Waiting(snap))
    case Lock(pid) => Put(s, pid, Locked(s.procs[pid].place.snap)).(syncer := Owner(pid))
    case LookAgain(pid) =>
      var snap := s.procs[pid].place.snap;
      Put(s, pid, if Covers(s.marker, snap) then Leaving(snap, true) else Noting(snap, []))
    case Note(pid) =>
      var p := s.procs[pid].place;
      if |p.noted| < 3 then Put(s, pid, Noting(p.snap, p.noted + [|s.files[|p.noted|].data|]))
      else Put(s, pid, Syncing(p.snap, p.noted, 0))
    case Fsync(pid) =>
      var p := s.procs[pid].place;
      var f := s.files[p.done];
      Put(s, pid, Syncing(p.snap, p.eofs, p.done + 1)).(files := s.files[p.done := f.(synced := |f.data|)])
    case Publish(pid) =>
      var p := s.procs[pid].place;
      Put(s, pid, Leaving(p.snap, true)).(marker := p.eofs)
    case Fail(pid) => Put(s, pid, Leaving(s.procs[pid].place.snap, false))
    case Leave(pid) =>
      var p := s.procs[pid].place;
      Put(s, pid, Idle).(syncer := Nobody, acked := if p.ok then s.acked + [p.snap] else s.acked)
    case Kill(pid) => Gone(s, pid)
    case PowerLoss(lens, marker) =>
      State([CutFile(s.files[0], lens[0]), CutFile(s.files[1], lens[1]), CutFile(s.files[2], lens[2])],
            marker, Nobody, Nobody, map[], s.acked)
  }

  // ---- the invariant ----

  /** The header ends first, and every record takes at least the shortest length; in the maps it
      takes no more. */
  predicate EndsOk(file: nat, ends: seq<nat>) {
    && ends != [] && ends[0] == HEADER
    && (forall i, j :: 0 <= i < j < |ends| ==> ends[i] + Least(file) <= ends[j])
    && (file == 1 ==> forall i :: 0 <= i < |ends| ==> ends[i] == HEADER + 80 * i)
    && (file == 2 ==> forall i :: 0 <= i < |ends| ==> ends[i] == HEADER + 82 * i)
  }

  predicate FileOk(file: nat, f: File) {
    && file < 3 && EndsOk(file, f.ends) && End(f) <= |f.data| && IsPart(file, |f.data| - End(f))
    && HEADER <= f.synced <= |f.data|
  }

  /** A record that ends within `n` is synced: some synced record ends so close before `n` that no
      other one fits in between. */
  ghost predicate Marked(file: nat, f: File, n: nat) {
    exists e :: e in f.ends && e <= f.synced && n < e + Least(file)
  }

  /** The same once the file is synced. */
  ghost predicate Noted(file: nat, f: File, n: nat) {
    exists e :: e in f.ends && n < e + Least(file)
  }

  /** `m` covers no record that `n` does not cover. */
  predicate CoversMore(f: File, m: nat, n: nat) {
    forall e :: e in f.ends && e <= m ==> e <= n
  }

  /** From file `lo` on, `snap` is durable. */
  predicate Durable(lo: nat, files: seq<File>, snap: Snapshot)
    requires |files| == 3
  {
    forall k :: lo <= k < 3 ==> snap[k] <= files[k].data && |snap[k]| in files[k].ends && |snap[k]| <= files[k].synced
  }

  /** `snap` consists of whole records that were written. */
  predicate Written(files: seq<File>, snap: Snapshot)
    requires |files| == 3
  {
    forall k :: 0 <= k < 3 ==> snap[k] <= files[k].data && |snap[k]| in files[k].ends
  }

  predicate Holding(place: Place) {
    place.Locked? || place.Noting? || place.Syncing? || place.Leaving?
  }

  ghost predicate NotedAll(lo: nat, files: seq<File>, marker: Lens, snap: Snapshot, noted: seq<nat>)
    requires |files| == 3
  {
    && |noted| <= 3 && (forall k :: 0 <= k < |noted| ==> |snap[k]| <= noted[k])
    && (forall k :: lo <= k < |noted| ==> Noted(k, files[k], noted[k]) && CoversMore(files[k], marker[k], noted[k]))
  }

  ghost predicate SyncedAll(lo: nat, files: seq<File>, snap: Snapshot, eofs: Lens, done: nat)
    requires |files| == 3
  {
    && done <= 3 && (forall k :: 0 <= k < done ==> |snap[k]| <= files[k].synced)
    && (forall k :: lo <= k < done ==> Marked(k, files[k], eofs[k]))
  }

  ghost predicate PlaceInv(lo: nat, files: seq<File>, marker: Lens, place: Place)
    requires |files| == 3
  {
    match place
    case Opening(next) => next < 3
    case Entering(next) => next < 3
    case Idle => true
    case Flushing(snap) => Written(files, snap)
    case Waiting(snap) => Written(files, snap)
    case Locked(snap) => Written(files, snap)
    case Noting(snap, noted) => Written(files, snap) && NotedAll(lo, files, marker, snap, noted)
    case Syncing(snap, eofs, done) =>
      Written(files, snap) && NotedAll(lo, files, marker, snap, eofs) && SyncedAll(lo, files, snap, eofs, done)
    case Leaving(snap, ok) => ok ==> Durable(lo, files, snap)
  }

  /** How far a process has read is where a record ends. */
  predicate ViewOk(files: seq<File>, view: Lens)
    requires |files| == 3
  {
    forall k :: 0 <= k < 3 ==> view[k] in files[k].ends
  }

  /** From file `lo` on, every record that the marker covers is synced. */
  ghost predicate DiskInv(lo: nat, files: seq<File>, marker: Lens) {
    && |files| == 3 && (forall k :: 0 <= k < 3 ==> FileOk(k, files[k]))
    && (forall k :: lo <= k < 3 ==> Marked(k, files[k], marker[k]))
  }

  /** No file is read for opening while someone writes, and only one flush has the sync lock. */
  ghost predicate LocksOk(s: State) {
    && (forall p :: p in s.procs && s.procs[p].place.Opening? ==> s.writer == Nobody)
    && (forall p :: p in s.procs && s.procs[p].place.Entering? ==> s.writer == Owner(p))
    && (s.writer.Owner? ==> s.writer.pid in s.procs && (s.procs[s.writer.pid].place.Entering? || s.procs[s.writer.pid].place.Idle?))
    && (forall p :: p in s.procs && Holding(s.procs[p].place) ==> s.syncer == Owner(p))
    && (s.syncer.Owner? ==> s.syncer.pid in s.procs && Holding(s.procs[s.syncer.pid].place))
  }

  ghost predicate AckedOk(lo: nat, s: State)
    requires |s.files| == 3
  {
    forall i :: 0 <= i < |s.acked| ==> Durable(lo, s.files, s.acked[i])
  }

  ghost predicate ProcsOk(lo: nat, s: State)
    requires |s.files| == 3
  {
    forall p :: p in s.procs ==> PlaceInv(lo, s.files, s.marker, s.procs[p].place) && ViewOk(s.files, s.procs[p].view)
  }

  /** What every step keeps of the files from `lo` on: of both maps always, and of the pack under
      the guard on its steps. */
  ghost predicate Inv(lo: nat, s: State) {
    lo <= 1 && DiskInv(lo, s.files, s.marker) && AckedOk(lo, s) && ProcsOk(lo, s) && LocksOk(s)
  }

  /** A flush does not note the length of the pack while its last record is torn behind its
      header or later. The maps need no guard. */
  predicate Allowed(lo: nat, s: State, a: Action)
    requires |s.files| == 3 && Enabled(s, a)
  {
    lo == 0 && a.Note? && s.procs[a.pid].place.noted == [] ==> Torn(s.files[0]) < Least(0)
  }

  // ---- what stays ----

  /** Whole records stay, and synced ones stay synced. */
  ghost predicate FileKept(file: nat, before: File, after: File) {
    && FileOk(file, before) && FileOk(file, after)
    && before.ends <= after.ends && before.data[..End(before)] <= after.data
    && (forall e :: e in before.ends && e <= before.synced ==> e <= after.synced)
  }

  ghost predicate Kept(before: seq<File>, after: seq<File>) {
    |before| == |after| == 3 && forall k :: 0 <= k < 3 ==> FileKept(k, before[k], after[k])
  }

  lemma EndIsLast(file: nat, f: File, e: nat)
    requires EndsOk(file, f.ends) && e in f.ends
    ensures e <= End(f)
  {
    var i :| 0 <= i < |f.ends| && f.ends[i] == e;
  }

  lemma PrefixStays(file: nat, before: File, after: File, snap: Bytes)
    requires FileKept(file, before, after) && snap <= before.data && |snap| in before.ends
    ensures snap <= after.data && |snap| in after.ends && (|snap| <= before.synced ==> |snap| <= after.synced)
  {
    EndIsLast(file, before, |snap|);
    assert snap == before.data[..End(before)][..|snap|] == after.data[..|snap|];
  }

  lemma WrittenStays(before: seq<File>, after: seq<File>, snap: Snapshot)
    requires Kept(before, after) && Written(before, snap)
    ensures Written(after, snap)
  {
    hide FileKept;
    forall k | 0 <= k < 3
      ensures snap[k] <= after[k].data && |snap[k]| in after[k].ends
    {
      PrefixStays(k, before[k], after[k], snap[k]);
    }
  }

  lemma DurableStays(lo: nat, before: seq<File>, after: seq<File>, snap: Snapshot)
    requires Kept(before, after) && Durable(lo, before, snap)
    ensures Durable(lo, after, snap)
  {
    hide FileKept;
    forall k | lo <= k < 3
      ensures snap[k] <= after[k].data && |snap[k]| in after[k].ends && |snap[k]| <= after[k].synced
    {
      PrefixStays(k, before[k], after[k], snap[k]);
    }
  }

  lemma MarkedStays(file: nat, before: File, after: File, n: nat)
    requires FileKept(file, before, after)
    ensures Marked(file, before, n) ==> Marked(file, after, n)
    ensures Noted(file, before, n) ==> Noted(file, after, n)
  {
    hide FileOk, Least;
    if Marked(file, before, n) {
      var e :| e in before.ends && e <= before.synced && n < e + Least(file);
      EndStays(before.ends, after.ends, e);
    }
    if Noted(file, before, n) {
      var e :| e in before.ends && n < e + Least(file);
      EndStays(before.ends, after.ends, e);
    }
  }

  lemma EndStays(before: seq<nat>, after: seq<nat>, e: nat)
    requires before <= after && e in before
    ensures e in after
  {
    var i :| 0 <= i < |before| && before[i] == e;
    assert after[i] == e;
  }

  /** What the marker covers is synced. */
  lemma MarkedIsSynced(file: nat, f: File, n: nat, e: nat)
    requires FileOk(file, f) && Marked(file, f, n) && e in f.ends && e <= n
    ensures e <= f.synced
  {
    var m :| m in f.ends && m <= f.synced && n < m + Least(file);
    var i :| 0 <= i < |f.ends| && f.ends[i] == m;
    var j :| 0 <= j < |f.ends| && f.ends[j] == e;
  }

  /** No new record fits below the marker. */
  lemma NewEndsAreBeyond(file: nat, before: File, after: File, n: nat, e: nat)
    requires FileKept(file, before, after) && Noted(file, before, n) && e in after.ends && e !in before.ends
    ensures e > n
  {
    var m :| m in before.ends && n < m + Least(file);
    var i :| 0 <= i < |before.ends| && before.ends[i] == m;
    var j :| 0 <= j < |after.ends| && after.ends[j] == e;
    assert after.ends[i] == m;
    assert forall x :: 0 <= x < |before.ends| ==> after.ends[x] in before.ends;
  }

  lemma CoversMoreStays(file: nat, before: File, after: File, m: nat, n: nat)
    requires FileKept(file, before, after) && Marked(file, before, m) && CoversMore(before, m, n)
    ensures CoversMore(after, m, n)
  {
    assert Noted(file, before, m);
    forall e | e in after.ends && e <= m
      ensures e <= n
    {
      if e !in before.ends {
        NewEndsAreBeyond(file, before, after, m, e);
      }
    }
  }

  lemma NotedAllStays(lo: nat, before: seq<File>, after: seq<File>, marker: Lens, snap: Snapshot, noted: seq<nat>)
    requires Kept(before, after) && DiskInv(lo, before, marker) && NotedAll(lo, before, marker, snap, noted)
    ensures NotedAll(lo, after, marker, snap, noted)
  {
    hide FileKept, FileOk, Marked, Noted, CoversMore;
    forall k | lo <= k < |noted|
      ensures Noted(k, after[k], noted[k]) && CoversMore(after[k], marker[k], noted[k])
    {
      MarkedStays(k, before[k], after[k], noted[k]);
      CoversMoreStays(k, before[k], after[k], marker[k], noted[k]);
    }
  }

  lemma SyncedAllStays(lo: nat, before: seq<File>, after: seq<File>, snap: Snapshot, eofs: Lens, done: nat)
    requires Kept(before, after) && Written(before, snap) && SyncedAll(lo, before, snap, eofs, done)
    ensures SyncedAll(lo, after, snap, eofs, done)
  {
    hide FileKept, Marked;
    forall k | lo <= k < done
      ensures Marked(k, after[k], eofs[k])
    {
      MarkedStays(k, before[k], after[k], eofs[k]);
    }
    forall k | 0 <= k < done
      ensures |snap[k]| <= after[k].synced
    {
      PrefixStays(k, before[k], after[k], snap[k]);
    }
  }

  lemma PlaceStays(lo: nat, before: seq<File>, after: seq<File>, marker: Lens, place: Place)
    requires Kept(before, after) && DiskInv(lo, before, marker) && PlaceInv(lo, before, marker, place)
    ensures PlaceInv(lo, after, marker, place)
  {
    hide Kept, DiskInv, Written, NotedAll, SyncedAll, Durable;
    match place
    case Opening(_) =>
    case Entering(_) =>
    case Idle =>
    case Flushing(snap) => WrittenStays(before, after, snap);
    case Waiting(snap) => WrittenStays(before, after, snap);
    case Locked(snap) => WrittenStays(before, after, snap);
    case Noting(snap, noted) =>
      WrittenStays(before, after, snap);
      NotedAllStays(lo, before, after, marker, snap, noted);
    case Syncing(snap, eofs, done) =>
      WrittenStays(before, after, snap);
      NotedAllStays(lo, before, after, marker, snap, eofs);
      SyncedAllStays(lo, before, after, snap, eofs, done);
    case Leaving(snap, ok) =>
      if ok {
        DurableStays(lo, before, after, snap);
      }
  }

  lemma ViewStays(before: seq<File>, after: seq<File>, view: Lens)
    requires Kept(before, after) && ViewOk(before, view)
    ensures ViewOk(after, view)
  {
    hide FileOk;
  }

  lemma DiskStays(lo: nat, before: seq<File>, after: seq<File>, marker: Lens)
    requires Kept(before, after) && DiskInv(lo, before, marker)
    ensures DiskInv(lo, after, marker)
  {
    forall k | lo <= k < 3
      ensures Marked(k, after[k], marker[k])
    {
      MarkedStays(k, before[k], after[k], marker[k]);
    }
    hide Marked, FileOk;
  }

  /** A change of the files that keeps records keeps the invariant. */
  lemma FilesKeep(lo: nat, s: State, files: seq<File>)
    requires Inv(lo, s) && Kept(s.files, files)
    ensures Inv(lo, s.(files := files))
  {
    DiskStays(lo, s.files, files, s.marker);
    forall p | p in s.procs
      ensures PlaceInv(lo, files, s.marker, s.procs[p].place) && ViewOk(files, s.procs[p].view)
    {
      PlaceStays(lo, s.files, files, s.marker, s.procs[p].place);
      ViewStays(s.files, files, s.procs[p].view);
    }
    forall i | 0 <= i < |s.acked|
      ensures Durable(lo, files, s.acked[i])
    {
      DurableStays(lo, s.files, files, s.acked[i]);
    }
    hide PlaceInv, ViewOk, Durable, DiskInv, Kept;
    LocksStay(s, files);
  }

  lemma LocksStay(s: State, files: seq<File>)
    requires LocksOk(s)
    ensures LocksOk(s.(files := files))
  {
  }

  // ---- the files after one step ----

  lemma OneFileKept(before: seq<File>, k: nat, f: File)
    requires |before| == 3 && k < 3 && (forall j :: 0 <= j < 3 ==> FileOk(j, before[j])) && FileKept(k, before[k], f)
    ensures Kept(before, before[k := f])
  {
    forall j | 0 <= j < 3
      ensures FileKept(j, before[j], before[k := f][j])
    {
      if j != k {
        assert before[j].data[..End(before[j])] <= before[j].data;
      }
    }
  }

  lemma SyncedIsKept(file: nat, f: File)
    requires FileOk(file, f)
    ensures FileKept(file, f, f.(synced := |f.data|))
  {
    assert f.data[..End(f)] <= f.data;
  }

  lemma CutIsKept(file: nat, f: File)
    requires FileOk(file, f)
    ensures FileKept(file, f, Recovered(f)) && FileKept(file, f, CutOnly(f))
  {
    HeaderIsFirst(file, f);
    forall e | e in f.ends
      ensures e <= End(f)
    {
      EndIsLast(file, f, e);
    }
    assert f.data[..End(f)] <= f.data;
  }

  lemma HeaderIsFirst(file: nat, f: File)
    requires EndsOk(file, f.ends)
    ensures HEADER in f.ends && HEADER <= End(f)
  {
    assert f.ends[0] == HEADER;
  }

  lemma ExtendedIsKept(file: nat, f: File, bytes: Bytes, whole: bool)
    requires FileOk(file, f)
    requires var n := Torn(f) + |bytes|; if whole then IsWhole(file, n) else IsPart(file, n)
    ensures FileKept(file, f, Extended(f, bytes, whole))
  {
    hide EndsOk;
    HeaderIsFirst(file, f);
    if whole {
      EndsExtended(file, f, |f.data| + |bytes|);
    }
    PrefixOfMore(f.data, End(f), bytes);
  }

  lemma PrefixOfMore(data: Bytes, n: nat, bytes: Bytes)
    requires n <= |data|
    ensures data[..n] <= data + bytes
  {
  }

  lemma EndsExtended(file: nat, f: File, end: nat)
    requires FileOk(file, f) && end > End(f) && IsWhole(file, end - End(f))
    ensures EndsOk(file, f.ends + [end])
  {
    var ends := f.ends + [end];
    forall i, j | 0 <= i < j < |ends|
      ensures ends[i] + Least(file) <= ends[j]
    {
      if j == |f.ends| {
        EndIsLast(file, f, f.ends[i]);
      }
    }
  }

  // ---- the locks ----

  /** Opening, writing and dying processes respect the locks. */
  lemma WritersKeepLocks(s: State, a: Action)
    requires |s.files| == 3 && LocksOk(s) && Enabled(s, a)
    requires a.Open? || a.Acquire? || a.CatchUp? || a.KilledInCut? || a.Append? || a.Release? || a.Kill? || a.PowerLoss?
    ensures LocksOk(Do(s, a))
  {
    hide Recovered, CutOnly, Extended, CutFile, End, Torn, IsWhole, IsPart;
  }

  /** So do processes in their flush. */
  lemma FlushesKeepLocks(s: State, a: Action)
    requires |s.files| == 3 && LocksOk(s) && Enabled(s, a)
    requires a.Flush? || a.FastPath? || a.Lock? || a.LookAgain? || a.Note? || a.Fsync? || a.Publish? || a.Fail? || a.Leave?
    ensures LocksOk(Do(s, a))
  {
    hide LocksOk, Do;
    if a.Flush? || a.FastPath? || a.Lock? {
      ComersKeepLocks(s, a);
    } else {
      HoldersKeepLocks(s, a);
    }
  }

  lemma ComersKeepLocks(s: State, a: Action)
    requires |s.files| == 3 && LocksOk(s) && Enabled(s, a) && (a.Flush? || a.FastPath? || a.Lock?)
    ensures LocksOk(Do(s, a))
  {
    hide Seen, Fits, Covers;
  }

  lemma HoldersKeepLocks(s: State, a: Action)
    requires |s.files| == 3 && LocksOk(s) && Enabled(s, a)
    requires a.LookAgain? || a.Note? || a.Fsync? || a.Publish? || a.Fail? || a.Leave?
    ensures LocksOk(Do(s, a))
  {
    hide Covers;
    var pid, t := a.pid, Do(s, a);
    OneHolds(s, pid);
    assert t.procs == s.procs[pid := t.procs[pid]] && t.writer == s.writer;
  }

  /** Whoever holds the sync lock is the only one. */
  lemma OneHolds(s: State, pid: nat)
    requires LocksOk(s) && pid in s.procs && Holding(s.procs[pid].place)
    ensures forall p :: p in s.procs && p != pid ==> !Holding(s.procs[p].place)
  {
  }

  // ---- every step ----

  lemma ProcFacts(lo: nat, s: State, pid: nat)
    requires Inv(lo, s) && pid in s.procs
    ensures |s.files| == 3 && (forall k :: 0 <= k < 3 ==> FileOk(k, s.files[k]))
    ensures DiskInv(lo, s.files, s.marker) && LocksOk(s)
    ensures PlaceInv(lo, s.files, s.marker, s.procs[pid].place) && ViewOk(s.files, s.procs[pid].view)
  {
    hide PlaceInv, ViewOk, LocksOk, FileOk, Marked;
  }

  /** A process that moves. */
  lemma MoveKeeps(lo: nat, s: State, t: State, pid: nat)
    requires Inv(lo, s) && pid in t.procs && LocksOk(t)
    requires t.files == s.files && t.marker == s.marker && t.procs == s.procs[pid := t.procs[pid]]
    requires PlaceInv(lo, s.files, s.marker, t.procs[pid].place) && ViewOk(s.files, t.procs[pid].view)
    requires t.acked == s.acked || (exists snap: Snapshot :: t.acked == s.acked + [snap] && Durable(lo, s.files, snap))
    ensures Inv(lo, t)
  {
    hide DiskInv, Durable, ViewOk, PlaceInv, LocksOk;
  }

  lemma CoveredIsDurable(lo: nat, files: seq<File>, marker: Lens, snap: Snapshot)
    requires DiskInv(lo, files, marker) && Written(files, snap) && Covers(marker, snap)
    ensures Durable(lo, files, snap)
  {
    hide Marked, FileOk;
    forall k | lo <= k < 3
      ensures |snap[k]| <= files[k].synced
    {
      MarkedIsSynced(k, files[k], marker[k], |snap[k]|);
    }
  }

  lemma OpenKeeps(lo: nat, s: State, pid: nat)
    requires Inv(lo, s) && Enabled(s, Open(pid))
    ensures Inv(lo, Do(s, Open(pid)))
  {
    WritersKeepLocks(s, Open(pid));
    hide LocksOk;
    forall k | 0 <= k < 3
      ensures HEADER in s.files[k].ends
    {
      HeaderIsFirst(k, s.files[k]);
    }
    hide FileOk, Marked, Durable;
    MoveKeeps(lo, s, Do(s, Open(pid)), pid);
  }

  lemma AcquireKeeps(lo: nat, s: State, pid: nat)
    requires Inv(lo, s) && Enabled(s, Acquire(pid))
    ensures Inv(lo, Do(s, Acquire(pid)))
  {
    ProcFacts(lo, s, pid);
    WritersKeepLocks(s, Acquire(pid));
    hide Inv, LocksOk, FileOk, DiskInv, ViewOk;
    MoveKeeps(lo, s, Do(s, Acquire(pid)), pid);
  }

  lemma ReleaseKeeps(lo: nat, s: State, pid: nat)
    requires Inv(lo, s) && Enabled(s, Release(pid))
    ensures Inv(lo, Do(s, Release(pid)))
  {
    ProcFacts(lo, s, pid);
    WritersKeepLocks(s, Release(pid));
    hide Inv, LocksOk, FileOk, DiskInv, ViewOk;
    MoveKeeps(lo, s, Do(s, Release(pid)), pid);
  }

  lemma CatchUpKeeps(lo: nat, s: State, pid: nat)
    requires Inv(lo, s) && Enabled(s, CatchUp(pid))
    ensures Inv(lo, Do(s, CatchUp(pid))) && Kept(s.files, Do(s, CatchUp(pid)).files)
  {
    hide LocksOk, FileOk, ViewOk, FileKept, Kept, Enabled, Do, PlaceInv, CaughtUp, AckedOk, ProcsOk;
    var k := CatchUpIs(s, pid);
    ProcFacts(lo, s, pid);
    hide Inv, DiskInv;
    WritersKeepLocks(s, CatchUp(pid));
    CutIsKept(k, s.files[k]);
    CaughtUpOk(lo, s, pid);
    hide Recovered;
    ChangeKeeps(lo, s, pid, k, Recovered(s.files[k]), CaughtUp(s, pid));
  }

  /** The process with one file read. */
  function CaughtUp(s: State, pid: nat): Proc
    requires |s.files| == 3 && pid in s.procs && CatchingUp(s.procs[pid].place)
  {
    var p := s.procs[pid];
    Proc(p.view[p.place.next := End(s.files[p.place.next])], Further(p.place))
  }

  lemma CatchUpIs(s: State, pid: nat) returns (k: nat)
    requires |s.files| == 3 && Enabled(s, CatchUp(pid))
    ensures pid in s.procs && CatchingUp(s.procs[pid].place) && k == s.procs[pid].place.next && End(s.files[k]) <= |s.files[k].data|
    ensures Do(s, CatchUp(pid)) == s.(files := s.files[k := Recovered(s.files[k])], procs := s.procs[pid := CaughtUp(s, pid)])
  {
    hide Recovered, End;
    k := s.procs[pid].place.next;
  }

  lemma CaughtUpOk(lo: nat, s: State, pid: nat)
    requires |s.files| == 3 && pid in s.procs && CatchingUp(s.procs[pid].place) && ViewOk(s.files, s.procs[pid].view)
    requires FileOk(s.procs[pid].place.next, s.files[s.procs[pid].place.next])
    ensures var k, proc := s.procs[pid].place.next, CaughtUp(s, pid);
            var files := s.files[k := Recovered(s.files[k])];
            PlaceInv(lo, files, s.marker, proc.place) && ViewOk(files, proc.view)
  {
    var k := s.procs[pid].place.next;
    assert End(s.files[k]) in s.files[k].ends;
  }

  /** A step that changes one file and the process itself. */
  lemma ChangeKeeps(lo: nat, s: State, pid: nat, k: nat, f: File, proc: Proc)
    requires Inv(lo, s) && k < 3 && pid in s.procs && FileKept(k, s.files[k], f)
    requires forall j :: 0 <= j < 3 ==> FileOk(j, s.files[j])
    requires PlaceInv(lo, s.files[k := f], s.marker, proc.place) && ViewOk(s.files[k := f], proc.view)
    requires LocksOk(s.(files := s.files[k := f], procs := s.procs[pid := proc]))
    ensures Inv(lo, s.(files := s.files[k := f], procs := s.procs[pid := proc])) && Kept(s.files, s.files[k := f])
  {
    var files := s.files[k := f];
    hide Inv, LocksOk, FileOk, ViewOk, Kept, PlaceInv;
    OneFileKept(s.files, k, f);
    FilesKeep(lo, s, files);
    MoveKeeps(lo, s.(files := files), s.(files := files, procs := s.procs[pid := proc]), pid);
  }

  lemma GoneKeeps(lo: nat, s: State, pid: nat)
    requires Inv(lo, s) && pid in s.procs
    ensures Inv(lo, Gone(s, pid))
  {
    hide PlaceInv, DiskInv, Durable, ViewOk;
  }

  lemma KilledInCutKeeps(lo: nat, s: State, pid: nat)
    requires Inv(lo, s) && Enabled(s, KilledInCut(pid))
    ensures Inv(lo, Do(s, KilledInCut(pid))) && Kept(s.files, Do(s, KilledInCut(pid)).files)
  {
    ProcFacts(lo, s, pid);
    var k := s.procs[pid].place.next;
    var f := CutOnly(s.files[k]);
    assert Do(s, KilledInCut(pid)) == Gone(s.(files := s.files[k := f]), pid);
    CutIsKept(k, s.files[k]);
    hide Inv, LocksOk, FileOk, DiskInv, ViewOk, CutOnly, FileKept, Kept, Torn, End, Enabled, Do, PlaceInv;
    OneFileKept(s.files, k, f);
    FilesKeep(lo, s, s.files[k := f]);
    GoneKeeps(lo, s.(files := s.files[k := f]), pid);
    assert Gone(s.(files := s.files[k := f]), pid).files == s.files[k := f];
  }

  lemma AppendKeeps(lo: nat, s: State, pid: nat, k: nat, bytes: Bytes, whole: bool)
    requires Inv(lo, s) && Enabled(s, Append(pid, k, bytes, whole))
    ensures Inv(lo, Do(s, Append(pid, k, bytes, whole))) && Kept(s.files, Do(s, Append(pid, k, bytes, whole)).files)
  {
    ProcFacts(lo, s, pid);
    WritersKeepLocks(s, Append(pid, k, bytes, whole));
    var f, view := Extended(s.files[k], bytes, whole), s.procs[pid].view;
    var proc := Proc(if whole then view[k := |f.data|] else view, Idle);
    assert Do(s, Append(pid, k, bytes, whole)) == s.(files := s.files[k := f], procs := s.procs[pid := proc]);
    ExtendedIsKept(k, s.files[k], bytes, whole);
    AppendedView(s, view, k, bytes, whole);
    hide Inv, LocksOk, FileOk, DiskInv, ViewOk, Extended, FileKept, Kept, Torn, IsWhole, IsPart, Enabled, Do;
    ChangeKeeps(lo, s, pid, k, f, proc);
  }

  lemma AppendedView(s: State, view: Lens, k: nat, bytes: Bytes, whole: bool)
    requires |s.files| == 3 && k < 3 && ViewOk(s.files, view)
    ensures var f := Extended(s.files[k], bytes, whole);
            ViewOk(s.files[k := f], if whole then view[k := |f.data|] else view)
  {
    var f := Extended(s.files[k], bytes, whole);
    assert whole ==> f.ends[|s.files[k].ends|] == |f.data|;
    EndStays(s.files[k].ends, f.ends, view[k]);
  }

  lemma FlushStartKeeps(lo: nat, s: State, pid: nat)
    requires Inv(lo, s) && Enabled(s, Flush(pid))
    ensures Inv(lo, Do(s, Flush(pid)))
  {
    hide LocksOk, FileOk, ViewOk, Written, Seen, Fits, Durable, Do, Enabled, AckedOk, ProcsOk;
    FlushMoves(s, pid);
    ProcFacts(lo, s, pid);
    hide Inv, DiskInv;
    FlushesKeepLocks(s, Flush(pid));
    SeenIsWritten(s.files, s.procs[pid].view);
    MoveKeeps(lo, s, Do(s, Flush(pid)), pid);
  }

  lemma FlushMoves(s: State, pid: nat)
    requires |s.files| == 3 && Enabled(s, Flush(pid))
    ensures pid in s.procs && Fits(s.files, s.procs[pid].view)
    ensures Do(s, Flush(pid)) == Put(s, pid, Flushing(Seen(s.files, s.procs[pid].view))).(writer := Free(s.writer, pid))
  {
  }

  lemma SeenIsWritten(files: seq<File>, view: Lens)
    requires |files| == 3 && Fits(files, view) && ViewOk(files, view)
    ensures Written(files, Seen(files, view))
  {
  }

  lemma FastPathKeeps(lo: nat, s: State, pid: nat)
    requires Inv(lo, s) && Enabled(s, FastPath(pid))
    ensures Inv(lo, Do(s, FastPath(pid)))
  {
    hide LocksOk, FileOk, ViewOk, Written, Covers, Durable, Do, Enabled, AckedOk, ProcsOk;
    FastPathIs(s, pid);
    ProcFacts(lo, s, pid);
    hide Inv, DiskInv;
    FlushesKeepLocks(s, FastPath(pid));
    var snap := s.procs[pid].place.snap;
    if Covers(s.marker, snap) {
      CoveredIsDurable(lo, s.files, s.marker, snap);
    }
    MoveKeeps(lo, s, Do(s, FastPath(pid)), pid);
  }

  lemma FastPathIs(s: State, pid: nat)
    requires |s.files| == 3 && Enabled(s, FastPath(pid))
    ensures pid in s.procs && s.procs[pid].place.Flushing?
    ensures var snap := s.procs[pid].place.snap;
            Do(s, FastPath(pid)) == if Covers(s.marker, snap) then Put(s, pid, Idle).(acked := s.acked + [snap])
                                    else Put(s, pid, Waiting(snap))
  {
  }

  lemma LockKeeps(lo: nat, s: State, pid: nat)
    requires Inv(lo, s) && Enabled(s, Lock(pid))
    ensures Inv(lo, Do(s, Lock(pid)))
  {
    ProcFacts(lo, s, pid);
    FlushesKeepLocks(s, Lock(pid));
    hide Inv, LocksOk, FileOk, DiskInv, ViewOk, Written, Durable;
    MoveKeeps(lo, s, Do(s, Lock(pid)), pid);
  }

  lemma LookAgainKeeps(lo: nat, s: State, pid: nat)
    requires Inv(lo, s) && Enabled(s, LookAgain(pid))
    ensures Inv(lo, Do(s, LookAgain(pid)))
  {
    ProcFacts(lo, s, pid);
    FlushesKeepLocks(s, LookAgain(pid));
    var snap := s.procs[pid].place.snap;
    NothingNoted(lo, s.files, s.marker, snap);
    hide Inv, LocksOk, FileOk, DiskInv, ViewOk, Written, Covers, Durable, NotedAll;
    if Covers(s.marker, snap) {
      CoveredIsDurable(lo, s.files, s.marker, snap);
    }
    MoveKeeps(lo, s, Do(s, LookAgain(pid)), pid);
  }

  lemma NothingNoted(lo: nat, files: seq<File>, marker: Lens, snap: Snapshot)
    requires |files| == 3
    ensures NotedAll(lo, files, marker, snap, [])
  {
  }

  /** The noted length covers all records, and reaches into no further one than a short way. */
  lemma NotedHere(lo: nat, s: State, place: Place)
    requires DiskInv(lo, s.files, s.marker) && place.Noting? && |place.noted| < 3
    requires PlaceInv(lo, s.files, s.marker, place)
    requires lo == 0 && place.noted == [] ==> Torn(s.files[0]) < Least(0)
    ensures NotedAll(lo, s.files, s.marker, place.snap, place.noted + [|s.files[|place.noted|].data|])
  {
    var k := |place.noted|;
    hide Marked, FileOk, Noted, NotedAll, CoversMore, Torn, Least;
    LengthIsNoted(k, s.files[k], s.marker[k], |place.snap[k]|);
    NotedOneMore(lo, s.files, s.marker, place.snap, place.noted, |s.files[k].data|);
  }

  lemma NotedOneMore(lo: nat, files: seq<File>, marker: Lens, snap: Snapshot, noted: seq<nat>, n: nat)
    requires |files| == 3 && |noted| < 3 && NotedAll(lo, files, marker, snap, noted) && |snap[|noted|]| <= n
    requires lo <= |noted| ==> Noted(|noted|, files[|noted|], n) && CoversMore(files[|noted|], marker[|noted|], n)
    ensures NotedAll(lo, files, marker, snap, noted + [n])
  {
    hide Noted, CoversMore;
  }

  lemma LengthIsNoted(k: nat, f: File, m: nat, e: nat)
    requires FileOk(k, f) && e in f.ends
    ensures e <= |f.data| && CoversMore(f, m, |f.data|)
    ensures k > 0 || Torn(f) < Least(0) ==> Noted(k, f, |f.data|)
  {
    forall x | x in f.ends
      ensures x <= |f.data|
    {
      EndIsLast(k, f, x);
    }
    assert End(f) in f.ends;
  }

  lemma NoteStep(t: State, pid: nat)
    requires |t.files| == 3 && Enabled(t, Note(pid))
    ensures pid in t.procs && t.procs[pid].place.Noting? && |t.procs[pid].place.noted| <= 3
    ensures var p, u := t.procs[pid].place, Do(t, Note(pid));
            && u == Put(t, pid, u.procs[pid].place)
            && pid in u.procs && u.files == t.files && u.marker == t.marker && u.acked == t.acked
            && u.procs[pid].place == if |p.noted| < 3 then Noting(p.snap, p.noted + [|t.files[|p.noted|].data|])
                                     else Syncing(p.snap, p.noted, 0)
  {
  }

  lemma NoteKeeps(lo: nat, s: State, pid: nat)
    requires Inv(lo, s) && Enabled(s, Note(pid)) && Allowed(lo, s, Note(pid))
    ensures Inv(lo, Do(s, Note(pid)))
  {
    hide LocksOk, FileOk, ViewOk, Written, Durable, NotedAll, SyncedAll, Torn, Least, Do, Enabled, Marked, AckedOk, ProcsOk;
    NoteStep(s, pid);
    ProcFacts(lo, s, pid);
    hide Inv, DiskInv;
    FlushesKeepLocks(s, Note(pid));
    var p := s.procs[pid].place;
    if |p.noted| < 3 {
      NotedHere(lo, s, p);
    } else {
      NothingSynced(lo, s.files, p.snap, p.noted);
    }
    MoveKeeps(lo, s, Do(s, Note(pid)), pid);
  }

  lemma NothingSynced(lo: nat, files: seq<File>, snap: Snapshot, eofs: Lens)
    requires |files| == 3
    ensures SyncedAll(lo, files, snap, eofs, 0)
  {
  }

  /** Syncing a file makes all its records durable, and takes nothing from the others. */
  lemma FsyncKeeps(lo: nat, s: State, pid: nat)
    requires Inv(lo, s) && Enabled(s, Fsync(pid))
    ensures Inv(lo, Do(s, Fsync(pid))) && Kept(s.files, Do(s, Fsync(pid)).files)
  {
    hide LocksOk, FileOk, ViewOk, Written, Durable, NotedAll, SyncedAll, Torn, Least, Do, Enabled, Marked, AckedOk, ProcsOk, Kept, FileKept;
    FsyncMoves(s, pid);
    ProcFacts(lo, s, pid);
    hide Inv, DiskInv;
    FlushesKeepLocks(s, Fsync(pid));
    var p, t := s.procs[pid].place, Do(s, Fsync(pid));
    SyncedIsKept(p.done, s.files[p.done]);
    OneFileKept(s.files, p.done, t.files[p.done]);
    FilesKeep(lo, s, t.files);
    ProcFacts(lo, s.(files := t.files), pid);
    FsyncedAll(lo, t.files, s.marker, p);
    MoveKeeps(lo, s.(files := t.files), t, pid);
  }

  lemma FsyncMoves(s: State, pid: nat)
    requires |s.files| == 3 && Enabled(s, Fsync(pid))
    ensures pid in s.procs && s.procs[pid].place.Syncing? && s.procs[pid].place.done < 3
    ensures var p, t := s.procs[pid].place, Do(s, Fsync(pid));
            && t.files == s.files[p.done := s.files[p.done].(synced := |s.files[p.done].data|)]
            && t == Put(s, pid, Syncing(p.snap, p.eofs, p.done + 1)).(files := t.files)
  {
  }

  lemma FsyncedAll(lo: nat, files: seq<File>, marker: Lens, place: Place)
    requires DiskInv(lo, files, marker) && place.Syncing? && place.done < 3 && PlaceInv(lo, files, marker, place)
    requires files[place.done].synced == |files[place.done].data|
    ensures SyncedAll(lo, files, place.snap, place.eofs, place.done + 1)
  {
    var k := place.done;
    hide Marked, Noted, FileOk, CoversMore;
    AllIsSynced(k, files[k], place.eofs[k], |place.snap[k]|);
  }

  lemma AllIsSynced(k: nat, f: File, n: nat, e: nat)
    requires FileOk(k, f) && f.synced == |f.data| && e in f.ends
    ensures e <= f.synced && (Noted(k, f, n) ==> Marked(k, f, n))
  {
    hide Least;
    forall x | x in f.ends
      ensures x <= f.synced
    {
      EndIsLast(k, f, x);
    }
  }

  /** Away from the sync lock the marker does not matter. */
  lemma MarkerFree(lo: nat, files: seq<File>, before: Lens, after: Lens, place: Place)
    requires |files| == 3 && !Holding(place) && PlaceInv(lo, files, before, place)
    ensures PlaceInv(lo, files, after, place)
  {
  }

  /** A published marker covers synced records only, and all that the marker before covered. */
  lemma PublishKeeps(lo: nat, s: State, pid: nat)
    requires Inv(lo, s) && Enabled(s, Publish(pid))
    ensures Inv(lo, Do(s, Publish(pid)))
    ensures forall k :: lo <= k < 3 ==> CoversMore(s.files[k], s.marker[k], Do(s, Publish(pid)).marker[k])
  {
    ProcFacts(lo, s, pid);
    FlushesKeepLocks(s, Publish(pid));
    var p := s.procs[pid].place;
    SyncedIsDurable(lo, s.files, s.marker, p);
    OneHolds(s, pid);
    forall q | q in s.procs && q != pid
      ensures PlaceInv(lo, s.files, p.eofs, s.procs[q].place)
    {
      MarkerFree(lo, s.files, s.marker, p.eofs, s.procs[q].place);
    }
    hide DiskInv, Durable, ViewOk, Written, NotedAll, SyncedAll, CoversMore, LocksOk, FileOk;
  }

  lemma SyncedIsDurable(lo: nat, files: seq<File>, marker: Lens, place: Place)
    requires DiskInv(lo, files, marker) && place.Syncing? && place.done == 3 && PlaceInv(lo, files, marker, place)
    ensures DiskInv(lo, files, place.eofs) && Durable(lo, files, place.snap)
    ensures forall k :: lo <= k < 3 ==> CoversMore(files[k], marker[k], place.eofs[k])
  {
    hide Marked, Noted, FileOk, CoversMore;
  }

  lemma FailKeeps(lo: nat, s: State, pid: nat)
    requires Inv(lo, s) && Enabled(s, Fail(pid))
    ensures Inv(lo, Do(s, Fail(pid)))
  {
    ProcFacts(lo, s, pid);
    FlushesKeepLocks(s, Fail(pid));
    hide Inv, LocksOk, FileOk, DiskInv, ViewOk, Written, Durable, NotedAll, SyncedAll;
    MoveKeeps(lo, s, Do(s, Fail(pid)), pid);
  }

  lemma LeaveKeeps(lo: nat, s: State, pid: nat)
    requires Inv(lo, s) && Enabled(s, Leave(pid))
    ensures Inv(lo, Do(s, Leave(pid)))
  {
    ProcFacts(lo, s, pid);
    FlushesKeepLocks(s, Leave(pid));
    var p := s.procs[pid].place;
    hide Inv, LocksOk, FileOk, DiskInv, ViewOk, Durable;
    assert p.ok ==> Do(s, Leave(pid)).acked == s.acked + [p.snap];
    MoveKeeps(lo, s, Do(s, Leave(pid)), pid);
  }

  // ---- power loss ----

  lemma {:induction false} WithinIsPrefix(ends: seq<nat>, n: nat)
    ensures EndsWithin(ends, n) <= ends
    ensures var m := |EndsWithin(ends, n)|; (m > 0 ==> ends[m - 1] <= n) && (m < |ends| ==> ends[m] > n)
    decreases |ends|
  {
    if ends != [] && ends[|ends| - 1] > n {
      WithinIsPrefix(ends[..|ends| - 1], n);
    }
  }

  lemma WithinHasAll(file: nat, ends: seq<nat>, n: nat, e: nat)
    requires EndsOk(file, ends) && HEADER <= n
    ensures e in EndsWithin(ends, n) <==> e in ends && e <= n
    ensures EndsOk(file, EndsWithin(ends, n))
  {
    WithinIsPrefix(ends, n);
    var r := EndsWithin(ends, n);
    hide EndsWithin;
    assert r != [];
    if e in ends && e <= n {
      var i :| 0 <= i < |ends| && ends[i] == e;
      assert i < |r|;
    }
    if e in r {
      var i :| 0 <= i < |r| && r[i] == e;
    }
  }

  lemma CutFileOk(file: nat, f: File, n: nat)
    requires FileOk(file, f) && f.synced <= n <= |f.data|
    ensures FileOk(file, CutFile(f, n))
    ensures forall e: nat :: e in CutFile(f, n).ends <==> e in f.ends && e <= n
  {
    forall e: nat
      ensures e in CutFile(f, n).ends <==> e in f.ends && e <= n
    {
      WithinHasAll(file, f.ends, n, e);
    }
    CutInRecord(file, f, n);
    hide EndsOk, EndsWithin, IsPart;
  }

  lemma CutInRecord(file: nat, f: File, n: nat)
    requires FileOk(file, f) && f.synced <= n <= |f.data|
    ensures var r := EndsWithin(f.ends, n);
            EndsOk(file, r) && r[|r| - 1] <= n && IsPart(file, n - r[|r| - 1])
  {
    WithinHasAll(file, f.ends, n, HEADER);
    WithinIsPrefix(f.ends, n);
    var r := EndsWithin(f.ends, n);
    hide EndsWithin;
    assert r[|r| - 1] == f.ends[|r| - 1];
  }

  lemma CutKeepsSynced(file: nat, f: File, n: nat)
    requires FileOk(file, f) && f.synced <= n <= |f.data|
    ensures forall m: nat :: Marked(file, f, m) ==> Marked(file, CutFile(f, n), m)
  {
    CutFileOk(file, f, n);
    hide FileOk, Least;
    forall m: nat | Marked(file, f, m)
      ensures Marked(file, CutFile(f, n), m)
    {
      var e :| e in f.ends && e <= f.synced && m < e + Least(file);
      assert e in CutFile(f, n).ends && e <= CutFile(f, n).synced;
    }
  }

  lemma MarkedBelow(file: nat, f: File, m: nat, n: nat)
    requires Marked(file, f, n) && m <= n
    ensures Marked(file, f, m)
  {
  }

  lemma CutKeepsDurable(lo: nat, before: seq<File>, after: seq<File>, lens: Lens, snap: Snapshot)
    requires |before| == |after| == 3 && (forall k :: 0 <= k < 3 ==> FileOk(k, before[k])) && Durable(lo, before, snap)
    requires forall k :: 0 <= k < 3 ==> before[k].synced <= lens[k] <= |before[k].data| && after[k] == CutFile(before[k], lens[k])
    ensures Durable(lo, after, snap)
  {
    forall k | lo <= k < 3
      ensures snap[k] <= after[k].data && |snap[k]| in after[k].ends && |snap[k]| <= after[k].synced
    {
      CutFileOk(k, before[k], lens[k]);
    }
  }

  /** The power takes only what was not synced. */
  lemma PowerLossKeeps(lo: nat, s: State, lens: Lens, marker: Lens)
    requires Inv(lo, s) && Enabled(s, PowerLoss(lens, marker))
    ensures Inv(lo, Do(s, PowerLoss(lens, marker)))
  {
    var t := Do(s, PowerLoss(lens, marker));
    hide CutFile, FileOk, Marked, Durable, Enabled, Do;
    PowerLossIs(s, lens, marker);
    PowerLossOnDisk(lo, s.files, t.files, lens, s.marker, marker);
    forall i | 0 <= i < |t.acked|
      ensures Durable(lo, t.files, t.acked[i])
    {
      CutKeepsDurable(lo, s.files, t.files, lens, s.acked[i]);
    }
  }

  lemma PowerLossIs(s: State, lens: Lens, marker: Lens)
    requires |s.files| == 3 && Enabled(s, PowerLoss(lens, marker))
    ensures forall k :: 0 <= k < 3 ==> s.files[k].synced <= lens[k] <= |s.files[k].data| && marker[k] <= s.marker[k]
    ensures var t := Do(s, PowerLoss(lens, marker));
            && (forall k :: 0 <= k < 3 ==> t.files[k] == CutFile(s.files[k], lens[k]))
            && t.marker == marker && t.acked == s.acked && t.procs == map[] && LocksOk(t)
  {
    hide CutFile;
  }

  lemma PowerLossOnDisk(lo: nat, before: seq<File>, after: seq<File>, lens: Lens, m: Lens, n: Lens)
    requires DiskInv(lo, before, m) && |after| == 3 && forall k :: 0 <= k < 3 ==> n[k] <= m[k]
    requires forall k :: 0 <= k < 3 ==> before[k].synced <= lens[k] <= |before[k].data| && after[k] == CutFile(before[k], lens[k])
    ensures DiskInv(lo, after, n)
  {
    hide CutFile, FileOk, Marked;
    forall k | 0 <= k < 3
      ensures FileOk(k, after[k]) && (k >= lo ==> Marked(k, after[k], n[k]))
    {
      CutFileOk(k, before[k], lens[k]);
      CutKeepsSynced(k, before[k], lens[k]);
      if k >= lo {
        MarkedBelow(k, after[k], n[k], m[k]);
      }
    }
  }

  /** Every step keeps the invariant. */
  lemma StepKeeps(lo: nat, s: State, a: Action)
    requires Inv(lo, s) && Enabled(s, a) && Allowed(lo, s, a)
    ensures Inv(lo, Do(s, a))
  {
    hide Inv, Do, Enabled, Allowed;
    match a
    case Open(pid) => OpenKeeps(lo, s, pid);
    case Acquire(pid) => AcquireKeeps(lo, s, pid);
    case CatchUp(pid) => CatchUpKeeps(lo, s, pid);
    case KilledInCut(pid) => KilledInCutKeeps(lo, s, pid);
    case Append(pid, k, bytes, whole) => AppendKeeps(lo, s, pid, k, bytes, whole);
    case Release(pid) => ReleaseKeeps(lo, s, pid);
    case Flush(pid) => FlushStartKeeps(lo, s, pid);
    case FastPath(pid) => FastPathKeeps(lo, s, pid);
    case Lock(pid) => LockKeeps(lo, s, pid);
    case LookAgain(pid) => LookAgainKeeps(lo, s, pid);
    case Note(pid) => NoteKeeps(lo, s, pid);
    case Fsync(pid) => FsyncKeeps(lo, s, pid);
    case Publish(pid) => PublishKeeps(lo, s, pid);
    case Fail(pid) => FailKeeps(lo, s, pid);
    case Leave(pid) => LeaveKeeps(lo, s, pid);
    case Kill(pid) => KillKeeps(lo, s, pid);
    case PowerLoss(lens, marker) => PowerLossKeeps(lo, s, lens, marker);
  }

  lemma KillKeeps(lo: nat, s: State, pid: nat)
    requires Inv(lo, s) && Enabled(s, Kill(pid))
    ensures Inv(lo, Do(s, Kill(pid)))
  {
    hide Inv, Gone;
    GoneKeeps(lo, s, pid);
  }

  // ---- runs ----

  /** All actions are enabled one after the other, and allowed from file `lo` on. */
  predicate IsRun(lo: nat, s: State, actions: seq<Action>)
    requires |s.files| == 3
    decreases |actions|
  {
    actions == [] || (Enabled(s, actions[0]) && Allowed(lo, s, actions[0]) && IsRun(lo, Do(s, actions[0]), actions[1..]))
  }

  function After(lo: nat, s: State, actions: seq<Action>): (r: State)
    requires |s.files| == 3 && IsRun(lo, s, actions)
    ensures |r.files| == 3
    decreases |actions|
  {
    if actions == [] then s else After(lo, Do(s, actions[0]), actions[1..])
  }

  lemma {:induction false} RunKeeps(lo: nat, s: State, actions: seq<Action>)
    requires Inv(lo, s) && IsRun(lo, s, actions)
    ensures Inv(lo, After(lo, s, actions)) && s.acked <= After(lo, s, actions).acked
    decreases |actions|
  {
    if actions != [] {
      StepKeeps(lo, s, actions[0]);
      AckedGrows(s, actions[0]);
      hide Inv, Enabled, Do, Allowed;
      RunKeeps(lo, Do(s, actions[0]), actions[1..]);
    }
  }

  lemma AckedGrows(s: State, a: Action)
    requires |s.files| == 3 && Enabled(s, a)
    ensures s.acked <= Do(s, a).acked
  {
  }

  lemma InitKeeps(lo: nat)
    requires lo <= 1
    ensures Inv(lo, Init())
  {
    forall k | lo <= k < 3
      ensures Marked(k, NEW_FILE, 0)
    {
      assert HEADER in NEW_FILE.ends && HEADER <= NEW_FILE.synced && 0 < HEADER + Least(k);
    }
  }

  /** In every state of every run, with processes killed and the power lost anywhere: whatever any
      flush has acknowledged of the files from `lo` on consists of whole records that are in the
      files and synced, and so it stays however the run goes on. The marker covers synced records
      only. With `lo` at 1 this is said of both maps and of all runs; with `lo` at 0 also of the
      pack, of the runs in which no flush notes its length behind the header of a torn record. */
  lemma AcknowledgedIsNeverLost(lo: nat, before: seq<Action>, after: seq<Action>)
    requires lo <= 1 && IsRun(lo, Init(), before) && IsRun(lo, After(lo, Init(), before), after)
    ensures var s := After(lo, Init(), before);
            var t := After(lo, s, after);
            && (forall snap: Snapshot :: snap in s.acked ==> Durable(lo, t.files, snap))
            && (forall k, e :: lo <= k < 3 && e in t.files[k].ends && e <= t.marker[k] ==> e <= t.files[k].synced)
  {
    InitKeeps(lo);
    RunKeeps(lo, Init(), before);
    var s := After(lo, Init(), before);
    RunKeeps(lo, s, after);
    var t := After(lo, s, after);
    hide IsRun, After, Durable, Marked, FileOk;
    forall k, e | lo <= k < 3 && e in t.files[k].ends && e <= t.marker[k]
      ensures e <= t.files[k].synced
    {
      MarkedIsSynced(k, t.files[k], t.marker[k], e);
    }
  }

  /** Where the marker may exceed the file: by less than the shortest record. */
  lemma MarkerStaysClose(lo: nat, s: State, k: nat)
    requires Inv(lo, s) && lo <= k < 3
    ensures s.marker[k] < End(s.files[k]) + Least(k)
  {
    var f := s.files[k];
    var e :| e in f.ends && e <= f.synced && s.marker[k] < e + Least(k);
    EndIsLast(k, f, e);
  }

  /** Short of a power loss, no whole record is lost, none that is synced is unsynced, and the
      marker goes on covering what it covers, although it may fall. */
  lemma RecordsStayCovered(lo: nat, s: State, a: Action)
    requires Inv(lo, s) && Enabled(s, a) && Allowed(lo, s, a) && !a.PowerLoss?
    ensures Kept(s.files, Do(s, a).files)
    ensures forall k :: lo <= k < 3 ==> CoversMore(Do(s, a).files[k], s.marker[k], Do(s, a).marker[k])
  {
    SameFilesKept(s.files);
    OnlySomeChange(s, a);
    hide Inv, Do, Enabled, Allowed, Kept;
    if a.CatchUp? {
      CatchUpKeeps(lo, s, a.pid);
    } else if a.KilledInCut? {
      KilledInCutKeeps(lo, s, a.pid);
    } else if a.Append? {
      AppendKeeps(lo, s, a.pid, a.file, a.bytes, a.whole);
    } else if a.Fsync? {
      FsyncKeeps(lo, s, a.pid);
    } else if a.Publish? {
      PublishKeeps(lo, s, a.pid);
    }
  }

  lemma OnlySomeChange(s: State, a: Action)
    requires |s.files| == 3 && Enabled(s, a) && !a.PowerLoss?
    ensures a.CatchUp? || a.KilledInCut? || a.Append? || a.Fsync? || Do(s, a).files == s.files
    ensures a.Publish? || Do(s, a).marker == s.marker
  {
    hide Recovered, CutOnly, Extended, Torn, Seen;
  }

  lemma SameFilesKept(files: seq<File>)
    requires |files| == 3 && forall k :: 0 <= k < 3 ==> FileOk(k, files[k])
    ensures Kept(files, files)
  {
    forall k | 0 <= k < 3
      ensures FileKept(k, files[k], files[k])
    {
      assert files[k].data[..End(files[k])] <= files[k].data;
    }
  }

  // ---- what a flush promises its caller ----

  lemma SnapshotIsFixed(s: State, a: Action, pid: nat)
    requires |s.files| == 3 && Enabled(s, a) && InFlush(s, pid) && pid in Do(s, a).procs
    ensures if InFlush(Do(s, a), pid) then Do(s, a).procs[pid].place.snap == s.procs[pid].place.snap
            else Do(s, a).acked == s.acked + [s.procs[pid].place.snap] || s.procs[pid].place == Leaving(s.procs[pid].place.snap, false)
  {
    hide Recovered, CutOnly, Extended, CutFile, End, Seen, Covers;
  }

  predicate InFlush(s: State, pid: nat) {
    pid in s.procs && !s.procs[pid].place.Idle? && !s.procs[pid].place.Opening? && !s.procs[pid].place.Entering?
  }

  /** The process lives all through the run. */
  ghost predicate Lives(lo: nat, s: State, actions: seq<Action>, pid: nat)
    requires |s.files| == 3 && IsRun(lo, s, actions)
    decreases |actions|
  {
    pid in s.procs && (actions != [] ==> Lives(lo, Do(s, actions[0]), actions[1..], pid))
  }

  /** It is in its flush all through the run. */
  ghost predicate Flushes(lo: nat, s: State, actions: seq<Action>, pid: nat)
    requires |s.files| == 3 && IsRun(lo, s, actions)
    decreases |actions|
  {
    InFlush(s, pid) && (actions != [] ==> Flushes(lo, Do(s, actions[0]), actions[1..], pid))
  }

  lemma {:induction false} SnapshotStays(lo: nat, s: State, actions: seq<Action>, pid: nat)
    requires |s.files| == 3 && IsRun(lo, s, actions) && Flushes(lo, s, actions, pid)
    ensures var t := After(lo, s, actions);
            InFlush(s, pid) && InFlush(t, pid) && t.procs[pid].place.snap == s.procs[pid].place.snap
    decreases |actions|
  {
    if actions != [] {
      SnapshotIsFixed(s, actions[0], pid);
      hide Enabled, Do, Allowed, InFlush;
      SnapshotStays(lo, Do(s, actions[0]), actions[1..], pid);
    }
  }

  /** `last` ends the flush of the process with Ok. */
  predicate Acknowledges(s: State, last: Action, pid: nat)
    requires |s.files| == 3
  {
    && InFlush(s, pid) && Enabled(s, last)
    && if last == FastPath(pid) then Covers(s.marker, s.procs[pid].place.snap)
       else last == Leave(pid) && s.procs[pid].place.ok
  }

  /** The state when the flush begins, when its snapshot is taken, before it returns, when it
      has returned Ok, and at the end. */
  datatype Story = Story(begin: State, taken: State, late: State, told: State, end: State)

  /** `pid` flushes at some place of a run, lives to be told Ok, and the run goes on. */
  ghost predicate Tells(lo: nat, y: Story, pid: nat, before: seq<Action>, during: seq<Action>, last: Action, after: seq<Action>) {
    && IsRun(lo, Init(), before) && y.begin == After(lo, Init(), before)
    && Enabled(y.begin, Flush(pid)) && y.taken == Do(y.begin, Flush(pid))
    && IsRun(lo, y.taken, during) && y.late == After(lo, y.taken, during) && Flushes(lo, y.taken, during, pid)
    && Acknowledges(y.late, last, pid) && y.told == Do(y.late, last)
    && IsRun(lo, y.told, after) && y.end == After(lo, y.told, after)
  }

  /** Whatever a process has read or written when it calls a flush that returns Ok is in the
      files and synced from then on, through kills and power losses. */
  lemma FlushedIsNeverLost(lo: nat, y: Story, pid: nat, before: seq<Action>, during: seq<Action>, last: Action, after: seq<Action>)
    requires lo <= 1 && Tells(lo, y, pid, before, during, last, after)
    ensures pid in y.begin.procs && Fits(y.begin.files, y.begin.procs[pid].view)
    ensures Durable(lo, y.end.files, Seen(y.begin.files, y.begin.procs[pid].view))
  {
    hide Durable, Fits, Seen, Covers;
    FlushIs(y.begin, pid);
    SnapshotStays(lo, y.taken, during, pid);
    AcknowledgedIs(y.late, last, pid);
    hide Enabled, Do, InFlush, Acknowledges;
    InitKeeps(lo);
    RunKeeps(lo, Init(), before);
    StepKeeps(lo, y.begin, Flush(pid));
    RunKeeps(lo, y.taken, during);
    StepKeeps(lo, y.late, last);
    RunKeeps(lo, y.told, after);
    var snap := y.taken.procs[pid].place.snap;
    var i := |y.late.acked|;
    assert y.told.acked[i] == snap;
    assert y.end.acked[i] == snap;
    hide DiskInv, ProcsOk, LocksOk, IsRun, Flushes;
  }

  lemma FlushIs(s: State, pid: nat)
    requires |s.files| == 3 && Enabled(s, Flush(pid))
    ensures pid in s.procs && Fits(s.files, s.procs[pid].view) && Allowed(0, s, Flush(pid)) && Allowed(1, s, Flush(pid))
    ensures var t := Do(s, Flush(pid));
            InFlush(t, pid) && t.procs[pid].place.snap == Seen(s.files, s.procs[pid].view)
  {
    hide Fits, Seen;
  }

  lemma AcknowledgedIs(s: State, last: Action, pid: nat)
    requires |s.files| == 3 && Acknowledges(s, last, pid)
    ensures Allowed(0, s, last) && Allowed(1, s, last) && Do(s, last).acked == s.acked + [s.procs[pid].place.snap]
  {
    hide Covers;
  }

  /** A process never forgets what it has read or written. */
  lemma {:induction false} ViewGrows(lo: nat, s: State, actions: seq<Action>, pid: nat)
    requires Inv(lo, s) && IsRun(lo, s, actions) && Lives(lo, s, actions, pid)
    ensures var t := After(lo, s, actions);
            && pid in s.procs && pid in t.procs && |t.files| == 3 && Kept(s.files, t.files)
            && forall k :: 0 <= k < 3 ==> s.procs[pid].view[k] <= t.procs[pid].view[k]
    decreases |actions|
  {
    if actions == [] {
      SameFilesKept(s.files);
    } else {
      var a := actions[0];
      StepKeeps(lo, s, a);
      assert !a.PowerLoss?;
      RecordsStayCovered(lo, s, a);
      OneStepView(lo, s, a, pid);
      hide Enabled, Do, Allowed, Inv, Kept;
      ViewGrows(lo, Do(s, a), actions[1..], pid);
      KeptTwice(s.files, Do(s, a).files, After(lo, s, actions).files);
    }
  }

  lemma KeptTwice(a: seq<File>, b: seq<File>, c: seq<File>)
    requires Kept(a, b) && Kept(b, c)
    ensures Kept(a, c)
  {
    forall k | 0 <= k < 3
      ensures FileKept(k, a[k], c[k])
    {
      FileKeptTwice(k, a[k], b[k], c[k]);
    }
  }

  lemma FileKeptTwice(k: nat, a: File, b: File, c: File)
    requires FileKept(k, a, b) && FileKept(k, b, c)
    ensures FileKept(k, a, c)
  {
    EndStays(a.ends, b.ends, End(a));
    EndIsLast(k, b, End(a));
    assert c.data[..End(a)] == c.data[..End(b)][..End(a)] == b.data[..End(b)][..End(a)] == b.data[..End(a)];
    forall e | e in a.ends && e <= a.synced
      ensures e <= c.synced
    {
      EndStays(a.ends, b.ends, e);
    }
    hide FileOk;
  }

  lemma OneStepView(lo: nat, s: State, a: Action, pid: nat)
    requires Inv(lo, s) && Enabled(s, a) && pid in s.procs && pid in Do(s, a).procs
    ensures forall k :: 0 <= k < 3 ==> s.procs[pid].view[k] <= Do(s, a).procs[pid].view[k]
  {
    ProcFacts(lo, s, pid);
    forall k | 0 <= k < 3
      ensures s.procs[pid].view[k] <= End(s.files[k]) <= |s.files[k].data|
    {
      EndIsLast(k, s.files[k], s.procs[pid].view[k]);
    }
    hide Inv, DiskInv, FileOk, LocksOk, PlaceInv, ViewOk, Recovered, End, Enabled, Do;
    if a == CatchUp(pid) {
      var k := CatchUpIs(s, pid);
    } else if a.Append? && a.pid == pid {
      AppendMovesView(s, a);
    } else {
      ViewIsOwn(s, a, pid);
    }
  }

  lemma AppendMovesView(s: State, a: Action)
    requires |s.files| == 3 && Enabled(s, a) && a.Append?
    ensures a.file < 3 && a.pid in s.procs && a.pid in Do(s, a).procs
    ensures var view := s.procs[a.pid].view;
            Do(s, a).procs[a.pid].view == if a.whole then view[a.file := |s.files[a.file].data| + |a.bytes|] else view
  {
    hide End, Torn, IsWhole, IsPart;
  }

  lemma ViewIsOwn(s: State, a: Action, pid: nat)
    requires |s.files| == 3 && Enabled(s, a) && pid in s.procs && pid in Do(s, a).procs
    requires a != CatchUp(pid) && !(a.Append? && a.pid == pid)
    ensures Do(s, a).procs[pid].view == s.procs[pid].view
  {
    hide Recovered, CutOnly, Extended, CutFile, End, Torn, Seen, Covers, Fits, IsWhole, IsPart;
  }

  /** A record that a process has completed before it calls a flush that returns Ok, and all that
      was in the file before that record, is in the file and synced from then on. */
  lemma AppendedIsNeverLost(lo: nat, y: Story, pid: nat, k: nat, bytes: Bytes, early: seq<Action>, between: seq<Action>,
                            during: seq<Action>, last: Action, after: seq<Action>)
    requires lo <= 1 && lo <= k < 3 && IsRun(lo, Init(), early)
    requires Enabled(After(lo, Init(), early), Append(pid, k, bytes, true))
    requires var u := Do(After(lo, Init(), early), Append(pid, k, bytes, true));
             IsRun(lo, u, between) && Lives(lo, u, between, pid)
    requires Tells(lo, y, pid, early + [Append(pid, k, bytes, true)] + between, during, last, after)
    ensures var d := After(lo, Init(), early).files[k].data + bytes;
            d <= y.end.files[k].data && |d| <= y.end.files[k].synced
  {
    var s := After(lo, Init(), early);
    var a := Append(pid, k, bytes, true);
    var u := Do(s, a);
    InitKeeps(lo);
    RunKeeps(lo, Init(), early);
    StepKeeps(lo, s, a);
    AppendIs(s, pid, k, bytes);
    hide Inv, Do, Enabled, Allowed, Tells;
    RunsJoin(lo, Init(), early, a, between);
    ViewGrows(lo, u, between, pid);
    FlushedIsNeverLost(lo, y, pid, early + [a] + between, during, last, after);
    ToldAt(lo, y, pid, early + [a] + between, during, last, after);
    AppendIsSeen(u, y.begin, y.end, pid, k, lo);
  }

  lemma ToldAt(lo: nat, y: Story, pid: nat, before: seq<Action>, during: seq<Action>, last: Action, after: seq<Action>)
    requires Tells(lo, y, pid, before, during, last, after)
    ensures y.begin == After(lo, Init(), before) && |y.begin.files| == |y.end.files| == 3
  {
  }

  lemma AppendIs(s: State, pid: nat, k: nat, bytes: Bytes)
    requires |s.files| == 3 && Enabled(s, Append(pid, k, bytes, true))
    ensures Allowed(0, s, Append(pid, k, bytes, true)) && Allowed(1, s, Append(pid, k, bytes, true))
    ensures var t := Do(s, Append(pid, k, bytes, true));
            && k < 3 && pid in t.procs && t.files[k].data == s.files[k].data + bytes
            && t.procs[pid].view[k] == |t.files[k].data| && |t.files[k].data| in t.files[k].ends && End(t.files[k]) == |t.files[k].data|
  {
    var f := Extended(s.files[k], bytes, true);
    assert f.ends[|s.files[k].ends|] == |f.data|;
  }

  lemma AppendIsSeen(u: State, s: State, t: State, pid: nat, k: nat, lo: nat)
    requires |u.files| == |s.files| == |t.files| == 3 && lo <= k < 3 && pid in u.procs && pid in s.procs
    requires Kept(u.files, s.files) && u.procs[pid].view[k] <= s.procs[pid].view[k] && Fits(s.files, s.procs[pid].view)
    requires u.procs[pid].view[k] == |u.files[k].data| == End(u.files[k])
    requires Durable(lo, t.files, Seen(s.files, s.procs[pid].view))
    ensures u.files[k].data <= t.files[k].data && |u.files[k].data| <= t.files[k].synced
  {
    var d, n := u.files[k].data, s.procs[pid].view[k];
    assert Seen(s.files, s.procs[pid].view)[k] == s.files[k].data[..n];
    assert s.files[k].data[..n] <= t.files[k].data && n <= t.files[k].synced;
    AllIsKept(k, u.files[k], s.files[k]);
    hide Durable, Kept, FileKept, End, Fits, Seen;
    PrefixOfPart(d, s.files[k].data, n, t.files[k].data);
  }

  lemma AllIsKept(k: nat, f: File, g: File)
    requires FileKept(k, f, g) && End(f) == |f.data|
    ensures f.data <= g.data
  {
    hide FileOk;
    assert f.data == f.data[..End(f)];
  }

  lemma PrefixOfPart(d: Bytes, e: Bytes, n: nat, t: Bytes)
    requires d <= e && |d| <= n <= |e| && e[..n] <= t
    ensures d <= t
  {
    assert d == e[..n][..|d|] == t[..|d|];
  }

  lemma {:induction false} RunsJoin(lo: nat, s: State, xs: seq<Action>, a: Action, ys: seq<Action>)
    requires |s.files| == 3 && IsRun(lo, s, xs)
    requires Enabled(After(lo, s, xs), a) && Allowed(lo, After(lo, s, xs), a) && IsRun(lo, Do(After(lo, s, xs), a), ys)
    ensures IsRun(lo, s, xs + [a] + ys)
    ensures After(lo, s, xs + [a] + ys) == After(lo, Do(After(lo, s, xs), a), ys)
    decreases |xs|
  {
    hide Enabled, Do, Allowed;
    var all := xs + [a] + ys;
    if xs == [] {
      assert all[0] == a && all[1..] == ys;
    } else {
      assert all[0] == xs[0] && all[1..] == xs[1..] + [a] + ys;
      RunsJoin(lo, Do(s, xs[0]), xs[1..], a, ys);
    }
  }

  // ---- when the pack is safe ----

  /** `run` leads from `s` to `t`. */
  ghost predicate Reaches(s: State, run: seq<Action>, t: State) {
    |s.files| == |t.files| == 3 && IsRun(0, s, run) && After(0, s, run) == t
  }

  lemma Start(s: State)
    requires |s.files| == 3
    ensures Reaches(s, [], s)
  {
  }

  lemma Step(s: State, run: seq<Action>, t: State, a: Action) returns (run': seq<Action>, t': State)
    requires Reaches(s, run, t) && Enabled(t, a) && Allowed(0, t, a)
    ensures |t.files| == |t'.files| == 3 && t' == Do(t, a) && Reaches(s, run', t')
  {
    hide Enabled, Do, Allowed;
    run', t' := run + [a], Do(t, a);
    RunsJoin(0, s, run, a, []);
    assert run + [a] + [] == run';
  }

  lemma FsyncStep(t: State, pid: nat)
    requires |t.files| == 3 && pid in t.procs && t.procs[pid].place.Syncing? && t.procs[pid].place.done < 3
    ensures Enabled(t, Fsync(pid)) && Allowed(0, t, Fsync(pid))
    ensures var p, u := t.procs[pid].place, Do(t, Fsync(pid));
            && pid in u.procs && u.marker == t.marker && u.acked == t.acked
            && u.files == t.files[p.done := t.files[p.done].(synced := |t.files[p.done].data|)]
            && u.procs[pid].place == Syncing(p.snap, p.eofs, p.done + 1)
  {
  }

  lemma PublishStep(t: State, pid: nat)
    requires |t.files| == 3 && pid in t.procs && t.procs[pid].place.Syncing? && t.procs[pid].place.done == 3
    ensures Enabled(t, Publish(pid)) && Allowed(0, t, Publish(pid))
    ensures var u := Do(t, Publish(pid));
            u.files == t.files && u.marker == t.procs[pid].place.eofs && u.acked == t.acked
  {
  }

  lemma NoteAgain(t: State, pid: nat)
    requires |t.files| == 3 && pid in t.procs && t.procs[pid].place.Noting? && 0 < |t.procs[pid].place.noted| <= 3
    ensures Enabled(t, Note(pid)) && Allowed(0, t, Note(pid))
  {
  }

  /** The file with everything synced. */
  function SyncedFile(f: File): File {
    f.(synced := |f.data|)
  }

  function AllSynced(files: seq<File>): seq<File>
    requires |files| == 3
  {
    [SyncedFile(files[0]), SyncedFile(files[1]), SyncedFile(files[2])]
  }

  /** A flush that has noted the pack goes on to its end. */
  lemma FlushOut(s: State, pid: nat, n: nat) returns (run: seq<Action>, t: State)
    requires |s.files| == 3 && pid in s.procs && s.procs[pid].place.Noting? && s.procs[pid].place.noted == [n]
    ensures Reaches(s, run, t) && t.files == AllSynced(s.files) && t.acked == s.acked
    ensures t.marker == [n, |s.files[1].data|, |s.files[2].data|]
  {
    hide Enabled, Do, Allowed, Reaches;
    var snap := s.procs[pid].place.snap;
    Start(s);
    run, t := [], s;
    NoteAgain(t, pid);
    NoteStep(t, pid);
    run, t := Step(s, run, t, Note(pid));
    NoteAgain(t, pid);
    NoteStep(t, pid);
    run, t := Step(s, run, t, Note(pid));
    assert t.procs[pid].place == Noting(snap, [n, |s.files[1].data|, |s.files[2].data|]);
    NoteAgain(t, pid);
    NoteStep(t, pid);
    run, t := Step(s, run, t, Note(pid));
    FsyncStep(t, pid);
    run, t := Step(s, run, t, Fsync(pid));
    FsyncStep(t, pid);
    run, t := Step(s, run, t, Fsync(pid));
    FsyncStep(t, pid);
    run, t := Step(s, run, t, Fsync(pid));
    PublishStep(t, pid);
    run, t := Step(s, run, t, Publish(pid));
    assert t.files == AllSynced(s.files);
  }

  function DataLens(files: seq<File>): Lens
    requires |files| == 3
  {
    [|files[0].data|, |files[1].data|, |files[2].data|]
  }

  function SyncedLens(files: seq<File>): Lens
    requires |files| == 3
  {
    [files[0].synced, files[1].synced, files[2].synced]
  }

  lemma CutNothing(f: File)
    requires f.ends != [] && End(f) <= |f.data| && f.synced == |f.data|
    ensures CutFile(f, |f.data|) == f
  {
    assert f.data[..|f.data|] == f.data;
  }

  /** The power may fail and take nothing but the processes. */
  lemma Restart(s: State, run: seq<Action>, t: State) returns (run': seq<Action>, t': State)
    requires Reaches(s, run, t) && |t.files| == 3
    requires forall k :: 0 <= k < 3 ==> t.files[k].ends != [] && End(t.files[k]) <= |t.files[k].data| == t.files[k].synced
    ensures Reaches(s, run', t') && t' == State(t.files, t.marker, Nobody, Nobody, map[], t.acked)
  {
    hide Reaches;
    CutNothing(t.files[0]);
    CutNothing(t.files[1]);
    CutNothing(t.files[2]);
    hide CutFile, End;
    run', t' := Step(s, run, t, PowerLoss(DataLens(t.files), t.marker));
  }

  function Ends(files: seq<File>): Lens
    requires |files| == 3
  {
    [End(files[0]), End(files[1]), End(files[2])]
  }

  /** A process reads all three files. */
  lemma CatchAll(s: State, run: seq<Action>, t: State, pid: nat) returns (run': seq<Action>, t': State)
    requires Reaches(s, run, t) && |t.files| == 3 && pid in t.procs && CatchingUp(t.procs[pid].place) && t.procs[pid].place.next == 0
    requires forall k :: 0 <= k < 3 ==> End(t.files[k]) <= |t.files[k].data|
    ensures Reaches(s, run', t')
    ensures t' == t.(files := [Recovered(t.files[0]), Recovered(t.files[1]), Recovered(t.files[2])],
                     procs := t.procs[pid := Proc(Ends(t.files), Idle)])
  {
    hide Reaches, Recovered, End, Enabled, Do;
    var opening, view := t.procs[pid].place.Opening?, t.procs[pid].view;
    CatchUpStep(t, pid);
    run', t' := Step(s, run, t, CatchUp(pid));
    CatchUpStep(t', pid);
    run', t' := Step(s, run', t', CatchUp(pid));
    CatchUpStep(t', pid);
    run', t' := Step(s, run', t', CatchUp(pid));
    assert t'.files == [Recovered(t.files[0]), Recovered(t.files[1]), Recovered(t.files[2])];
    assert t'.procs[pid].view == Ends(t.files);
    assert t'.procs == t.procs[pid := Proc(Ends(t.files), Idle)];
  }

  lemma CatchUpStep(t: State, pid: nat)
    requires |t.files| == 3 && pid in t.procs && CatchingUp(t.procs[pid].place)
    requires var k := t.procs[pid].place.next; End(t.files[k]) <= |t.files[k].data|
    ensures Enabled(t, CatchUp(pid)) && Allowed(0, t, CatchUp(pid))
    ensures var p := t.procs[pid];
            var k := p.place.next;
            Do(t, CatchUp(pid)) == t.(files := t.files[k := Recovered(t.files[k])],
                                      procs := t.procs[pid := Proc(p.view[k := End(t.files[k])], Further(p.place))])
  {
    hide Recovered, End;
  }

  /** Nothing is torn and everything is synced. */
  predicate Clean(f: File) {
    f.ends != [] && |f.data| == End(f) == f.synced
  }

  lemma CleanAfterRecovery(f: File)
    requires f.ends != [] && End(f) <= |f.data| == f.synced
    ensures Clean(Recovered(f)) && Recovered(f).ends == f.ends && Recovered(Recovered(f)) == Recovered(f)
  {
  }

  const ZEROS: Bytes := [0, 0, 0, 0, 0, 0, 0, 0, 0, 0, 0, 0, 0, 0, 0, 0, 0, 0, 0, 0, 0,
                         0, 0, 0, 0, 0, 0, 0, 0, 0, 0, 0, 0, 0, 0, 0, 0, 0, 0, 0, 0]

  /** A process that writes alone adds a shortest record to the pack and flushes it. When the
      marker covers it, the flush returns Ok at once; then the power fails. */
  lemma WrittenAndLost(s: State, run: seq<Action>, t: State) returns (run': seq<Action>, t': State)
    requires Reaches(s, run, t) && |t.files| == 3 && (forall k :: 0 <= k < 3 ==> Clean(t.files[k]))
    requires t.writer == Owner(0) && t.procs == map[0 := Proc(Ends(t.files), Idle)]
    requires t.marker[0] >= End(t.files[0]) + 41 && t.marker[1] >= End(t.files[1]) && t.marker[2] >= End(t.files[2])
    ensures Reaches(s, run', t') && |t'.files| == 3 && !AckedOk(0, t')
  {
    hide Reaches, CutFile;
    run', t' := WriteAndFlush(s, run, t, t.files);
    var snap := t'.acked[|t'.acked| - 1];
    assert Enabled(t', PowerLoss(SyncedLens(t'.files), t'.marker));
    var lens := SyncedLens(t'.files);
    PowerLossIs(t', lens, t'.marker);
    CutLength(t'.files[0], lens[0]);
    hide Enabled, Do;
    run', t' := Step(s, run', t', PowerLoss(lens, t'.marker));
    assert t'.acked[|t'.acked| - 1] == snap && |snap[0]| > |t'.files[0].data|;
    assert !Durable(0, t'.files, snap);
  }

  lemma CutLength(f: File, n: nat)
    requires n <= |f.data|
    ensures |CutFile(f, n).data| == n
  {
  }

  /** Opens the files, and takes the write lock. */
  lemma EnterAlone(s: State, run: seq<Action>, t: State, files: seq<File>) returns (run': seq<Action>, t': State)
    requires Reaches(s, run, t) && |t.files| == 3 && t.procs == map[] && t.writer == Nobody && |files| == 3
    requires forall k :: 0 <= k < 3 ==> End(t.files[k]) <= |t.files[k].data|
    requires forall k :: 0 <= k < 3 ==> files[k] == Recovered(t.files[k]) == Recovered(files[k])
    requires forall k :: 0 <= k < 3 ==> Clean(files[k]) && files[k].ends == t.files[k].ends
    ensures Reaches(s, run', t') && t' == t.(files := files, writer := Owner(0), procs := map[0 := Proc(Ends(t.files), Idle)])
  {
    hide Reaches, Recovered;
    assert [Recovered(t.files[0]), Recovered(t.files[1]), Recovered(t.files[2])] == files;
    run', t' := Step(s, run, t, Open(0));
    run', t' := CatchAll(s, run', t', 0);
    assert t' == t.(files := files, procs := map[0 := Proc(Ends(t.files), Idle)]);
    run', t' := Step(s, run', t', Acquire(0));
    run', t' := CatchAll(s, run', t', 0);
    assert Ends(files) == Ends(t.files);
    assert t'.procs == map[0 := Proc(Ends(t.files), Idle)];
  }

  lemma WriteAndFlush(s: State, run: seq<Action>, t: State, files: seq<File>) returns (run': seq<Action>, t': State)
    requires Reaches(s, run, t) && |files| == 3 && t.files == files && (forall k :: 0 <= k < 3 ==> Clean(files[k]))
    requires t.writer == Owner(0) && t.procs == map[0 := Proc(Ends(files), Idle)]
    requires t.marker[0] >= End(files[0]) + 41 && t.marker[1] >= End(files[1]) && t.marker[2] >= End(files[2])
    ensures Reaches(s, run', t') && |t'.files| == 3 && |t'.acked| == |t.acked| + 1 && |t'.acked[|t.acked|][0]| == |files[0].data| + 41
    ensures forall k :: 0 <= k < 3 ==> t'.files[k].synced == files[k].synced <= |t'.files[k].data|
  {
    hide Reaches;
    assert Clean(files[0]) && Clean(files[1]) && Clean(files[2]);
    run', t' := WriteShortest(s, run, t, files);
    hide End, Torn;
    IdleFlush(t'.(writer := Nobody), 0);
    run', t' := Step(s, run', t', Flush(0));
    run', t' := Step(s, run', t', FastPath(0));
  }

  lemma WriteShortest(s: State, run: seq<Action>, t: State, files: seq<File>) returns (run': seq<Action>, t': State)
    requires Reaches(s, run, t) && |files| == 3 && t.files == files
    requires Clean(files[0]) && Clean(files[1]) && Clean(files[2])
    requires t.writer == Owner(0) && t.procs == map[0 := Proc(Ends(files), Idle)]
    ensures Reaches(s, run', t') && |t'.files| == 3
    ensures t' == t.(files := files[0 := Extended(files[0], ZEROS, true)], procs := map[0 := Proc(DataLens(t'.files), Idle)])
  {
    hide Reaches;
    run', t' := Step(s, run, t, Append(0, 0, ZEROS, true));
    assert Ends(files)[0 := |files[0].data| + 41] == DataLens(t'.files);
    assert t'.procs == map[0 := Proc(DataLens(t'.files), Idle)];
  }

  /** A flush that notes the pack in the midst of a torn record, behind its header, may publish
      that length and leave the marker behind the end of the file by a shortest record. */
  lemma TornIsPublished(s: State, pid: nat) returns (rest: seq<Action>, t: State)
    requires Inv(0, s) && Enabled(s, Note(pid)) && s.procs[pid].place.noted == [] && Torn(s.files[0]) >= Least(0)
    ensures Reaches(Do(s, Note(pid)), rest, t) && |t.files| == 3 && (forall k :: 0 <= k < 3 ==> Clean(t.files[k]))
    ensures t.writer == Owner(0) && t.procs == map[0 := Proc(Ends(t.files), Idle)]
    ensures t.marker[0] >= End(t.files[0]) + 41 && t.marker[1] >= End(t.files[1]) && t.marker[2] >= End(t.files[2])
  {
    ProcFacts(0, s, pid);
    var files := RecoveredFiles(s.files);
    NoteStep(s, pid);
    hide Inv, DiskInv, FileOk, LocksOk, PlaceInv, ViewOk, ProcsOk, AckedOk, Reaches, Do, Enabled, Recovered, Clean, End;
    var u := Do(s, Note(pid));
    assert u.files == s.files && u.procs[pid].place.Noting? && u.procs[pid].place.noted == [|s.files[0].data|];
    rest, t := FlushAndRestart(u, pid, |s.files[0].data|);
    rest, t := EnterAlone(u, rest, t, files);
  }

  lemma FlushAndRestart(u: State, pid: nat, n: nat) returns (rest: seq<Action>, t: State)
    requires |u.files| == 3 && pid in u.procs && u.procs[pid].place.Noting? && u.procs[pid].place.noted == [n]
    requires forall k :: 0 <= k < 3 ==> u.files[k].ends != [] && End(AllSynced(u.files)[k]) <= |u.files[k].data|
    ensures Reaches(u, rest, t) && |t.files| == 3 && t.files == AllSynced(u.files) && t.procs == map[] && t.writer == Nobody
    ensures t.marker == [n, |u.files[1].data|, |u.files[2].data|]
  {
    hide Reaches, End;
    rest, t := FlushOut(u, pid, n);
    rest, t := Restart(u, rest, t);
  }

  /** What is left of the files when everything was synced and then cut. */
  lemma RecoveredFiles(before: seq<File>) returns (files: seq<File>)
    requires |before| == 3 && forall k :: 0 <= k < 3 ==> FileOk(k, before[k])
    ensures |files| == 3 && Ends(files) == Ends(before) == Ends(AllSynced(before))
    ensures forall k :: 0 <= k < 3 ==> Clean(files[k]) && files[k].ends == before[k].ends == AllSynced(before)[k].ends
    ensures forall k :: 0 <= k < 3 ==> before[k].ends != [] && End(AllSynced(before)[k]) == End(files[k]) <= |before[k].data|
    ensures forall k :: 0 <= k < 3 ==> files[k] == Recovered(AllSynced(before)[k]) == Recovered(files[k])
  {
    var synced := AllSynced(before);
    files := [Recovered(synced[0]), Recovered(synced[1]), Recovered(synced[2])];
    CleanAfterRecovery(synced[0]);
    CleanAfterRecovery(synced[1]);
    CleanAfterRecovery(synced[2]);
    hide Recovered, EndsOk;
  }

  /** A later flush then acknowledges what is lost. */
  lemma TornIsLost(s: State, pid: nat) returns (rest: seq<Action>)
    requires Inv(0, s) && Enabled(s, Note(pid)) && s.procs[pid].place.noted == [] && Torn(s.files[0]) >= Least(0)
    ensures IsRun(0, Do(s, Note(pid)), rest) && !AckedOk(0, After(0, Do(s, Note(pid)), rest))
  {
    var t;
    rest, t := TornIsPublished(s, pid);
    hide Reaches, Do, Enabled, Inv, Clean, AckedOk;
    rest, t := WrittenAndLost(Do(s, Note(pid)), rest, t);
    ReachesIs(Do(s, Note(pid)), rest, t);
  }

  lemma ReachesIs(s: State, run: seq<Action>, t: State)
    requires Reaches(s, run, t)
    ensures IsRun(0, s, run) && After(0, s, run) == t
  {
  }

  /** When a flush notes the length of the pack: whatever is acknowledged from then on, under the
      guard, is never lost if and only if the pack does not end behind the header of a torn
      record. */
  lemma NoteIsSafeExactlyWhenShort(s: State, pid: nat)
    requires Inv(0, s) && Enabled(s, Note(pid)) && s.procs[pid].place.noted == []
    ensures Torn(s.files[0]) < Least(0)
       <==> forall rest :: IsRun(0, Do(s, Note(pid)), rest) ==> AckedOk(0, After(0, Do(s, Note(pid)), rest))
  {
    if Torn(s.files[0]) < Least(0) {
      StepKeeps(0, s, Note(pid));
      forall rest | IsRun(0, Do(s, Note(pid)), rest)
        ensures AckedOk(0, After(0, Do(s, Note(pid)), rest))
      {
        RunKeeps(0, Do(s, Note(pid)), rest);
      }
    } else {
      var rest := TornIsLost(s, pid);
    }
  }

  // ---- an acknowledged record that is lost ----

  lemma IdleFlush(t: State, pid: nat)
    requires |t.files| == 3 && At(t, pid, Idle) && Fits(t.files, t.procs[pid].view) && t.writer == Nobody
    ensures Enabled(t, Flush(pid)) && Allowed(0, t, Flush(pid))
    ensures Do(t, Flush(pid)) == Put(t, pid, Flushing(Seen(t.files, t.procs[pid].view)))
  {
  }

  /** A process whose flush the marker does not cover comes as far as noting lengths. */
  lemma ComeToNote(s: State, run: seq<Action>, t: State, pid: nat) returns (run': seq<Action>, t': State, snap: Snapshot)
    requires Reaches(s, run, t) && |t.files| == 3 && At(t, pid, Idle) && Fits(t.files, t.procs[pid].view)
    requires t.writer == Nobody && t.syncer == Nobody && t.marker == [0, 0, 0] && t.procs[pid].view[0] > 0
    ensures Reaches(s, run', t') && |t'.files| == 3
    ensures t' == Put(t, pid, Noting(snap, [])).(syncer := Owner(pid))
  {
    hide Reaches;
    IdleFlush(t, pid);
    snap := Seen(t.files, t.procs[pid].view);
    assert |snap[0]| > 0;
    hide Seen, Fits;
    run', t' := Step(s, run, t, Flush(pid));
    assert !Covers(t.marker, snap);
    run', t' := Step(s, run', t', FastPath(pid));
    run', t' := Step(s, run', t', Lock(pid));
    run', t' := Step(s, run', t', LookAgain(pid));
    assert t' == Put(t, pid, Noting(snap, [])).(syncer := Owner(pid));
  }

  /** Two processes have opened new files. */
  lemma TwoOpen() returns (run: seq<Action>, t: State)
    ensures Reaches(Init(), run, t)
    ensures t == Init().(procs := map[1 := Proc([HEADER, HEADER, HEADER], Idle), 2 := Proc([HEADER, HEADER, HEADER], Idle)])
  {
    hide Reaches;
    Start(Init());
    assert Recovered(NEW_FILE) == NEW_FILE && Ends(Init().files) == [HEADER, HEADER, HEADER];
    hide Recovered;
    run, t := Step(Init(), [], Init(), Open(1));
    run, t := CatchAll(Init(), run, t, 1);
    assert t == Init().(procs := map[1 := Proc([HEADER, HEADER, HEADER], Idle)]);
    run, t := Step(Init(), run, t, Open(2));
    run, t := CatchAll(Init(), run, t, 2);
    assert t.procs == map[1 := Proc([HEADER, HEADER, HEADER], Idle), 2 := Proc([HEADER, HEADER, HEADER], Idle)];
  }

  /** The one is about to note the length of the pack while the other is writing a record. */
  lemma TornIsReachable() returns (run: seq<Action>, s: State)
    ensures Reaches(Init(), run, s) && |s.files| == 3
    ensures Enabled(s, Note(1)) && s.procs[1].place.noted == [] && Torn(s.files[0]) == Least(0)
  {
    hide Reaches;
    run, s := TwoOpen();
    var snap;
    run, s, snap := ComeToNote(Init(), run, s, 1);
    assert s.files == Init().files;
    hide Seen, Covers;
    run, s := Step(Init(), run, s, Acquire(2));
    assert Recovered(NEW_FILE) == NEW_FILE && [NEW_FILE, NEW_FILE, NEW_FILE] == s.files;
    run, s := CatchAll(Init(), run, s, 2);
    run, s := Step(Init(), run, s, Append(2, 0, ZEROS, false));
  }

  lemma {:induction false} GuardedIsRun(s: State, run: seq<Action>)
    requires |s.files| == 3 && IsRun(0, s, run)
    ensures IsRun(1, s, run) && After(1, s, run) == After(0, s, run)
    decreases |run|
  {
    hide Enabled, Do;
    if run != [] {
      GuardedIsRun(Do(s, run[0]), run[1..]);
    }
  }

  /** There is a run from new files in which a flush acknowledges a record of the pack that is then
      lost. */
  lemma AcknowledgedCanBeLost() returns (run: seq<Action>)
    ensures IsRun(1, Init(), run)
    ensures !AckedOk(0, After(1, Init(), run))
  {
    var first, s := TornIsReachable();
    ReachesIs(Init(), first, s);
    InitKeeps(0);
    RunKeeps(0, Init(), first);
    var rest := TornIsLost(s, 1);
    GuardedIsRun(Init(), first);
    GuardedIsRun(Do(s, Note(1)), rest);
    hide Enabled, Do, Reaches, Inv, AckedOk;
    RunsJoin(1, Init(), first, Note(1), rest);
    run := first + [Note(1)] + rest;
  }

  /** There is a run from new files that ends with a marker beyond the end of the pack. */
  lemma MarkerMayExceedTheFile() returns (run: seq<Action>)
    ensures IsRun(1, Init(), run)
    ensures var t := After(1, Init(), run); t.marker[0] >= |t.files[0].data| + Least(0)
  {
    var first, s := TornIsReachable();
    ReachesIs(Init(), first, s);
    InitKeeps(0);
    RunKeeps(0, Init(), first);
    var rest, t := TornIsPublished(s, 1);
    assert Clean(t.files[0]);
    ReachesIs(Do(s, Note(1)), rest, t);
    GuardedIsRun(Init(), first);
    GuardedIsRun(Do(s, Note(1)), rest);
    hide Enabled, Do, Reaches, Inv;
    RunsJoin(1, Init(), first, Note(1), rest);
    run := first + [Note(1)] + rest;
  }

  // ---- no flush waits forever ----

  /** How many steps a process has still to take in its flush. */
  function StepsLeft(place: Place): nat {
    match place
    case Opening(_) => 0
    case Entering(_) => 0
    case Idle => 0
    case Flushing(_) => 13
    case Waiting(_) => 12
    case Locked(_) => 11
    case Noting(_, noted) => if |noted| <= 3 then 10 - |noted| else 7
    case Syncing(_, _, done) => if done <= 3 then 6 - done else 3
    case Leaving(_, _) => 1
  }

  /** The step a process takes next in its flush, unless something fails. */
  function NextOf(place: Place, pid: nat): Action {
    match place
    case Opening(_) => CatchUp(pid)
    case Entering(_) => CatchUp(pid)
    case Idle => Flush(pid)
    case Flushing(_) => FastPath(pid)
    case Waiting(_) => Lock(pid)
    case Locked(_) => LookAgain(pid)
    case Noting(_, _) => Note(pid)
    case Syncing(_, _, done) => if done < 3 then Fsync(pid) else Publish(pid)
    case Leaving(_, _) => Leave(pid)
  }

  /** A flush that cannot go on waits for a process that can, and each step of either brings it
      closer to its end: a flush is over after at most 13 steps of its own. */
  lemma NeverStuck(lo: nat, s: State, pid: nat) returns (q: nat)
    requires Inv(lo, s) && InFlush(s, pid)
    ensures InFlush(s, q) && Enabled(s, NextOf(s.procs[q].place, q))
    ensures q == pid || (s.procs[pid].place.Waiting? && s.syncer == Owner(q))
    ensures q in Do(s, NextOf(s.procs[q].place, q)).procs
    ensures StepsLeft(Do(s, NextOf(s.procs[q].place, q)).procs[q].place) < StepsLeft(s.procs[q].place)
  {
    q := if s.procs[pid].place.Waiting? && s.syncer.Owner? then s.syncer.pid else pid;
    NextIsEnabled(lo, s, q);
    hide Do;
    StepGoesOn(s, q);
  }

  lemma NextIsEnabled(lo: nat, s: State, q: nat)
    requires Inv(lo, s) && InFlush(s, q) && (s.procs[q].place.Waiting? ==> s.syncer == Nobody)
    ensures Enabled(s, NextOf(s.procs[q].place, q))
  {
    ProcFacts(lo, s, q);
    hide Inv, DiskInv, LocksOk, ViewOk;
  }

  lemma StepGoesOn(s: State, q: nat)
    requires |s.files| == 3 && InFlush(s, q) && Enabled(s, NextOf(s.procs[q].place, q))
    ensures q in Do(s, NextOf(s.procs[q].place, q)).procs
    ensures StepsLeft(Do(s, NextOf(s.procs[q].place, q)).procs[q].place) < StepsLeft(s.procs[q].place)
  {
    hide Recovered, CutOnly, Extended, CutFile, Covers, Seen;
  }

  // ---- the marker file ----

  /** The three lengths in eight bytes each. */
  function MarkerBytes(eofs: Lens): Bytes {
    LittleEndian(eofs[0], 8) + LittleEndian(eofs[1], 8) + LittleEndian(eofs[2], 8)
  }

  /** The marker in a file, which may be missing or too short. */
  function ReadMarker(exists_: bool, d: Bytes): Lens {
    if exists_ && |d| >= 24 then [FromLittleEndian(d[0..8]), FromLittleEndian(d[8..16]), FromLittleEndian(d[16..24])] else [0, 0, 0]
  }

  /** A marker is read back as it was written; a file that is missing or cut short claims nothing
      beyond what any marker claims. */
  lemma MarkerRoundTrip(eofs: Lens, exists_: bool, cut: nat)
    requires cut <= 24 && forall k :: 0 <= k < 3 ==> eofs[k] < 0x1_0000_0000_0000_0000
    ensures |MarkerBytes(eofs)| == 24
    ensures var r := ReadMarker(exists_, MarkerBytes(eofs)[..cut]);
            && (exists_ && cut == 24 ==> r == eofs)
            && forall k :: 0 <= k < 3 ==> r[k] <= eofs[k]
  {
    var d := MarkerBytes(eofs);
    Widths();
    LittleEndianRoundTrip(eofs[0], 8);
    LittleEndianRoundTrip(eofs[1], 8);
    LittleEndianRoundTrip(eofs[2], 8);
    hide LittleEndian, FromLittleEndian;
    assert d[0..8] == LittleEndian(eofs[0], 8) && d[8..16] == LittleEndian(eofs[1], 8) && d[16..24] == LittleEndian(eofs[2], 8);
    if cut == 24 {
      assert d[..24] == d;
    }
  }
}

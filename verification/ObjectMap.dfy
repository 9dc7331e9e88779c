/** The append-only object map and its handles (crates/alt-odb/src/map.rs, lib.rs).

    Several handles share one file. A handle keeps the entries it has read, how far it has read,
    and two indexes. Under the write lock it first reads what others have appended and cuts off
    a record that a killed writer has left unfinished; then it appends only what the map does
    not hold. So every handle holds a prefix of the records, no git id is recorded twice, and
    the indexes are the inverses of the entry list. */
module ObjectMap {
  import opened MapRecord
  import opened Objects
  import opened Octets

  // ---- indexes ----

  type ByGit = map<ObjectId, nat>

  type ByAlt = map<Bytes, seq<nat>>

  ghost predicate Distinct(es: seq<MapEntry>) {
    forall j, k :: 0 <= j < k < |es| ==> es[j].git != es[k].git
  }

  /** For every git id the last entry that has it. */
  function GitIndex(es: seq<MapEntry>): ByGit {
    if es == [] then map[]
    else GitIndex(es[..|es| - 1])[es[|es| - 1].git := |es| - 1]
  }

  /** The entries with the content `alt`, in order. */
  function SlotsOf(es: seq<MapEntry>, alt: Bytes): seq<nat> {
    if es == [] then []
    else SlotsOf(es[..|es| - 1], alt) + if es[|es| - 1].alt == alt then [|es| - 1] else []
  }

  ghost predicate IsByAlt(es: seq<MapEntry>, byAlt: ByAlt) {
    forall a :: Slots(byAlt, a) == SlotsOf(es, a) && (a in byAlt ==> byAlt[a] != [])
  }

  ghost predicate Indexed(es: seq<MapEntry>, byGit: ByGit, byAlt: ByAlt) {
    byGit == GitIndex(es) && IsByAlt(es, byAlt)
  }

  function Slots(byAlt: ByAlt, alt: Bytes): seq<nat> {
    if alt in byAlt then byAlt[alt] else []
  }

  /** The git index knows exactly the ids of the entries; where these are distinct, it is the
      inverse of the entry list. */
  lemma {:induction false} GitIndexIsInverse(es: seq<MapEntry>)
    ensures forall g :: g in GitIndex(es) ==> GitIndex(es)[g] < |es| && es[GitIndex(es)[g]].git == g
    ensures forall k :: 0 <= k < |es| ==> es[k].git in GitIndex(es)
    ensures Distinct(es) ==> forall k :: 0 <= k < |es| ==> GitIndex(es)[es[k].git] == k
    decreases |es|
  {
    if es != [] {
      GitIndexIsInverse(es[..|es| - 1]);
    }
  }

  /** The content index lists exactly the entries with a content, in order. */
  lemma {:induction false} SlotsAreInverse(es: seq<MapEntry>, alt: Bytes)
    ensures forall k :: k in SlotsOf(es, alt) <==> 0 <= k < |es| && es[k].alt == alt
    ensures forall i, j :: 0 <= i < j < |SlotsOf(es, alt)| ==> SlotsOf(es, alt)[i] < SlotsOf(es, alt)[j]
    decreases |es|
  {
    if es != [] {
      var rest := es[..|es| - 1];
      SlotsAreInverse(rest, alt);
      assert forall i :: 0 <= i < |SlotsOf(rest, alt)| ==> SlotsOf(rest, alt)[i] in SlotsOf(rest, alt);
    }
  }

  lemma IndexGrows(es: seq<MapEntry>, e: MapEntry, byGit: ByGit, byAlt: ByAlt)
    requires Indexed(es, byGit, byAlt)
    ensures Indexed(es + [e], byGit[e.git := |es|], byAlt[e.alt := Slots(byAlt, e.alt) + [|es|]])
  {
    assert (es + [e])[..|es|] == es;
    var more := byAlt[e.alt := Slots(byAlt, e.alt) + [|es|]];
    forall a
      ensures Slots(more, a) == SlotsOf(es + [e], a) && (a in more ==> more[a] != [])
    {
      assert Slots(byAlt, a) == SlotsOf(es, a);
      assert SlotsOf(es + [e], a) == SlotsOf(es, a) + if e.alt == a then [|es|] else [];
    }
  }

  // ---- going back ----

  /** The slots below `n`. */
  function Below(slots: seq<nat>, n: nat): seq<nat> {
    if slots == [] then []
    else Below(slots[..|slots| - 1], n) + if slots[|slots| - 1] < n then [slots[|slots| - 1]] else []
  }

  lemma {:induction false} BelowAll(slots: seq<nat>, n: nat)
    requires forall i :: 0 <= i < |slots| ==> slots[i] < n
    ensures Below(slots, n) == slots
    decreases |slots|
  {
    if slots != [] {
      BelowAll(slots[..|slots| - 1], n);
    }
  }

  /** The slots of fewer entries are those below their number. */
  lemma {:induction false} SlotsOfFewer(es: seq<MapEntry>, n: nat, alt: Bytes)
    requires n <= |es|
    ensures Below(SlotsOf(es, alt), n) == SlotsOf(es[..n], alt)
    decreases |es|
  {
    if n == |es| {
      assert es[..n] == es;
      SlotsAreInverse(es, alt);
      assert forall i :: 0 <= i < |SlotsOf(es, alt)| ==> SlotsOf(es, alt)[i] in SlotsOf(es, alt);
      BelowAll(SlotsOf(es, alt), n);
    } else {
      var rest := es[..|es| - 1];
      SlotsOfFewer(rest, n, alt);
      assert rest[..n] == es[..n];
      if es[|es| - 1].alt == alt {
        assert SlotsOf(es, alt)[..|SlotsOf(es, alt)| - 1] == SlotsOf(rest, alt);
      } else {
        assert SlotsOf(es, alt) == SlotsOf(rest, alt);
      }
    }
  }

  /** Entries that do not have the content do not matter to its slots. */
  lemma {:induction false} SlotsWithout(es: seq<MapEntry>, n: nat, alt: Bytes)
    requires n <= |es| && forall k :: n <= k < |es| ==> es[k].alt != alt
    ensures SlotsOf(es, alt) == SlotsOf(es[..n], alt)
    decreases |es|
  {
    if n == |es| {
      assert es[..n] == es;
    } else {
      SlotsWithout(es[..|es| - 1], n, alt);
      assert es[..|es| - 1][..n] == es[..n];
    }
  }

  lemma {:induction false} GitIndexOfFewer(es: seq<MapEntry>, n: nat)
    requires n <= |es| && Distinct(es)
    ensures forall g :: g in GitIndex(es[..n]) <==> g in GitIndex(es) && GitIndex(es)[g] < n
    ensures forall g :: g in GitIndex(es[..n]) ==> GitIndex(es)[g] == GitIndex(es[..n])[g]
    decreases |es|
  {
    if n == |es| {
      assert es[..n] == es;
      GitIndexIsInverse(es);
    } else {
      var rest := es[..|es| - 1];
      GitIndexOfFewer(rest, n);
      assert rest[..n] == es[..n];
      GitIndexIsInverse(rest);
      GitIndexIsInverse(es[..n]);
    }
  }

  /** The git index while the entries from `keep` to `keep + i` have been dropped. */
  ghost predicate GitDropped(es: seq<MapEntry>, keep: nat, i: nat, byGit: ByGit) {
    && (forall g :: g in byGit <==> g in GitIndex(es) && !(keep <= GitIndex(es)[g] < keep + i))
    && (forall g :: g in byGit ==> byGit[g] == GitIndex(es)[g])
  }

  /** The content index while the entries from `keep` to `keep + i` have been dropped. */
  ghost predicate AltDropped(es: seq<MapEntry>, keep: nat, i: nat, byAlt: ByAlt) {
    forall a :: AltDroppedAt(es, keep, i, byAlt, a)
  }

  ghost predicate AltDroppedAt(es: seq<MapEntry>, keep: nat, i: nat, byAlt: ByAlt, a: Bytes) {
    && Slots(byAlt, a) == (if HasAlt(es, keep, keep + i, a) then Below(SlotsOf(es, a), keep) else SlotsOf(es, a))
    && (a in byAlt ==> byAlt[a] != [])
  }

  ghost predicate HasAlt(es: seq<MapEntry>, lo: nat, hi: nat, alt: Bytes) {
    exists k :: lo <= k < hi && k < |es| && es[k].alt == alt
  }

  lemma DropGit(es: seq<MapEntry>, keep: nat, i: nat, byGit: ByGit)
    requires Distinct(es) && keep + i < |es| && GitDropped(es, keep, i, byGit)
    ensures GitDropped(es, keep, i + 1, byGit - {es[keep + i].git})
  {
    GitIndexIsInverse(es);
  }

  lemma {:induction false} BelowIsBelow(slots: seq<nat>, n: nat)
    ensures forall i :: 0 <= i < |Below(slots, n)| ==> Below(slots, n)[i] < n
    decreases |slots|
  {
    if slots != [] {
      BelowIsBelow(slots[..|slots| - 1], n);
    }
  }

  lemma DropAltHere(es: seq<MapEntry>, keep: nat, i: nat, byAlt: ByAlt, after: ByAlt)
    requires keep + i < |es| && AltDroppedAt(es, keep, i, byAlt, es[keep + i].alt)
    requires var alt := es[keep + i].alt;
             Slots(after, alt) == Below(Slots(byAlt, alt), keep) && (alt in after ==> after[alt] != [])
    ensures AltDroppedAt(es, keep, i + 1, after, es[keep + i].alt)
  {
    var alt := es[keep + i].alt;
    BelowIsBelow(SlotsOf(es, alt), keep);
    BelowAll(Below(SlotsOf(es, alt), keep), keep);
    hide Below, SlotsOf;
    assert HasAlt(es, keep, keep + i + 1, alt);
  }

  lemma DropAltElsewhere(es: seq<MapEntry>, keep: nat, i: nat, byAlt: ByAlt, after: ByAlt, a: Bytes)
    requires keep + i < |es| && AltDroppedAt(es, keep, i, byAlt, a) && a != es[keep + i].alt
    requires (a in after <==> a in byAlt) && (a in after ==> after[a] == byAlt[a])
    ensures AltDroppedAt(es, keep, i + 1, after, a)
  {
    hide Below, SlotsOf;
    assert HasAlt(es, keep, keep + i + 1, a) <==> HasAlt(es, keep, keep + i, a);
  }

  /** Of the slots of `alt` those below `keep` are left. */
  ghost predicate Retained(byAlt: ByAlt, after: ByAlt, alt: Bytes, keep: nat) {
    && Slots(after, alt) == Below(Slots(byAlt, alt), keep) && (alt in after ==> after[alt] != [])
    && forall a :: a != alt ==> (a in after <==> a in byAlt) && (a in after ==> after[a] == byAlt[a])
  }

  lemma DropAlt(es: seq<MapEntry>, keep: nat, i: nat, byAlt: ByAlt, after: ByAlt)
    requires keep + i < |es| && AltDropped(es, keep, i, byAlt) && Retained(byAlt, after, es[keep + i].alt, keep)
    ensures AltDropped(es, keep, i + 1, after)
  {
    hide Below, SlotsOf, AltDroppedAt;
    var next := i + 1;
    forall a
      ensures AltDroppedAt(es, keep, next, after, a)
    {
      assert AltDroppedAt(es, keep, i, byAlt, a);
      if a == es[keep + i].alt {
        DropAltHere(es, keep, i, byAlt, after);
      } else {
        DropAltElsewhere(es, keep, i, byAlt, after, a);
      }
    }
  }

  /** Both indexes while the entries from `keep` to `keep + i` have been dropped. */
  ghost predicate Dropping(es: seq<MapEntry>, keep: nat, i: nat, byGit: ByGit, byAlt: ByAlt) {
    (Distinct(es) ==> GitDropped(es, keep, i, byGit)) && AltDropped(es, keep, i, byAlt)
  }

  lemma DropStep(es: seq<MapEntry>, keep: nat, i: nat, byGit: ByGit, byAlt: ByAlt, after: ByAlt)
    requires keep + i < |es| && Dropping(es, keep, i, byGit, byAlt) && Retained(byAlt, after, es[keep + i].alt, keep)
    ensures Dropping(es, keep, i + 1, byGit - {es[keep + i].git}, after)
  {
    hide Distinct, GitDropped, AltDropped, Retained;
    if Distinct(es) {
      DropGit(es, keep, i, byGit);
    }
    DropAlt(es, keep, i, byAlt, after);
  }

  /** When all entries from `keep` on are dropped, the indexes are those of the entries before. */
  lemma DroppedIsIndexed(es: seq<MapEntry>, keep: nat, byGit: ByGit, byAlt: ByAlt)
    requires Distinct(es) && keep <= |es| && Dropping(es, keep, |es| - keep, byGit, byAlt)
    ensures Indexed(es[..keep], byGit, byAlt)
  {
    GitIndexIsInverse(es);
    GitIndexOfFewer(es, keep);
    assert byGit == GitIndex(es[..keep]);
    forall a
      ensures Slots(byAlt, a) == SlotsOf(es[..keep], a) && (a in byAlt ==> byAlt[a] != [])
    {
      assert AltDroppedAt(es, keep, |es| - keep, byAlt, a);
      SlotsOfFewer(es, keep, a);
      if !HasAlt(es, keep, |es|, a) {
        SlotsWithout(es, keep, a);
      }
    }
  }

  lemma NothingDropped(es: seq<MapEntry>, keep: nat, byGit: ByGit, byAlt: ByAlt)
    requires Indexed(es, byGit, byAlt)
    ensures Dropping(es, keep, 0, byGit, byAlt)
  {
    forall a
      ensures AltDroppedAt(es, keep, 0, byAlt, a)
    {
      assert Slots(byAlt, a) == SlotsOf(es, a);
    }
  }

  /** The indexes are determined by the entries. */
  lemma IndexIsUnique(es: seq<MapEntry>, byGit: ByGit, byAlt: ByAlt, byGit': ByGit, byAlt': ByAlt)
    requires Indexed(es, byGit, byAlt) && Indexed(es, byGit', byAlt')
    ensures byGit == byGit' && byAlt == byAlt'
  {
    forall a
      ensures a in byAlt <==> a in byAlt'
      ensures a in byAlt ==> byAlt[a] == Slots(byAlt', a)
    {
      assert Slots(byAlt, a) == SlotsOf(es, a) == Slots(byAlt', a);
    }
  }
}

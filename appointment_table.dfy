/** The `salon.appointment` table and the operations of the model class that
    change it: `create`, the end-time compute, the no-overlap constraint and the
    five workflow buttons. A write the constraint rejects is aborted: the
    method reports the error and leaves the table as it was. */
module AppointmentTable {
  import opened Appointment

  /** The table while `create` stores its records: the first `i` dictionaries
      of `vs` under the ids from `base`, named `names`, before the compute. */
  function Staged(T: Records, base: nat, vs: seq<Vals>, names: seq<string>, i: nat): Records
    requires i <= |vs| <= |names|
  {
    T + map k: nat | base <= k < base + i :: StagedAt(vs, names, base, k)
  }

  function StagedAt(vs: seq<Vals>, names: seq<string>, base: nat, k: nat): Record
    requires base <= k < base + |vs| <= base + |names|
  {
    Prepare(vs[k - base], names[k - base])
  }

  lemma StagedStep(T: Records, base: nat, vs: seq<Vals>, names: seq<string>, i: nat)
    requires i < |vs| <= |names|
    ensures Staged(T, base, vs, names, i)[base + i := Prepare(vs[i], names[i])] == Staged(T, base, vs, names, i + 1)
  {
    assert Prepare(vs[i], names[i]) == StagedAt(vs, names, base, base + i);
  }

  /** Computing the ends of the staged records gives the table `Inserted` describes. */
  lemma StagedThenComputed(T: Records, base: nat, vs: seq<Vals>, names: seq<string>, ids: seq<nat>,
                           prefix: Option<string>, next: nat)
    requires forall k :: k in T ==> k < base
    requires |names| == |vs| == |ids|
    requires forall j :: 0 <= j < |vs| ==> names[j] == NameAt(vs, j, prefix, next)
    requires forall j :: 0 <= j < |ids| ==> ids[j] == base + j
    ensures WithEnds(Staged(T, base, vs, names, |vs|), ids) == Inserted(T, base, vs, prefix, next)
  {
    assert forall k :: k in ids <==> base <= k < base + |vs| by {
      forall k | base <= k < base + |vs| ensures k in ids {
        assert ids[k - base] == k;
      }
    }
  }

  /** The stored table keeps every end derived and every id below the next one. */
  lemma InsertedKeepsEnds(T: Records, base: nat, vs: seq<Vals>, prefix: Option<string>, next: nat)
    requires EndsDerived(T)
    ensures EndsDerived(Inserted(T, base, vs, prefix, next))
    ensures forall k :: k in Inserted(T, base, vs, prefix, next) && k !in T ==> base <= k < base + |vs|
  {
  }

  /** Outside the new ids the stored table is the old one, and every id is below the new next id. */
  lemma InsertedFrame(T: Records, base: nat, vs: seq<Vals>, prefix: Option<string>, next: nat, ids: seq<nat>)
    requires forall k :: k in T ==> k < base
    requires |ids| == |vs| && forall j :: 0 <= j < |ids| ==> ids[j] == base + j
    ensures forall k :: k in Inserted(T, base, vs, prefix, next) && k !in ids ==> k in T && Inserted(T, base, vs, prefix, next)[k] == T[k]
    ensures forall k :: k in Inserted(T, base, vs, prefix, next) ==> k < base + |vs|
  {
    forall k | base <= k < base + |vs| ensures k in ids {
      assert ids[k - base] == k;
    }
  }

  class Table {
    /** The stored appointments by record id. */
    var records: map<nat, Record>
    /** The id the next created record receives. */
    var nextId: nat
    /** The next number of the reference sequence. */
    var seqNext: nat
    /** The reference sequence: values are this prefix and the number; None
        when no sequence is configured. */
    const seqPrefix: Option<string>

    /** No two active bookings of one barber overlap, every end is derived,
        and every id is below the next one. */
    ghost predicate Valid()
      reads this
    {
      NoOverlap(records) && EndsDerived(records) && forall id :: id in records ==> id < nextId
    }

    constructor (prefix: Option<string>)
      ensures Valid()
      ensures records == map[] && nextId == 1 && seqNext == 1 && seqPrefix == prefix
    {
      records := map[];
      nextId := 1;
      seqNext := 1;
      seqPrefix := prefix;
    }

    /** The sequence's next value, or None when there is no sequence. */
    method NextByCode() returns (v: Option<string>)
      modifies this`seqNext
      ensures v == if seqPrefix.Some? then Some(SequenceValue(seqPrefix.value, old(seqNext))) else None
      ensures seqNext == old(seqNext) + (if seqPrefix.Some? then 1 else 0)
    {
      if seqPrefix.Some? {
        v := Some(SequenceValue(seqPrefix.value, seqNext));
        seqNext := seqNext + 1;
      } else {
        v := None;
      }
    }

    /** `_compute_end_dt` over the record set `ids`. */
    method ComputeEndDt(ids: seq<nat>)
      requires forall id :: id in ids ==> id in records
      modifies this`records
      ensures records == WithEnds(old(records), ids)
      ensures old(Valid()) ==> Valid()
    {
      ghost var T0 := records;
      if Valid() {
        RecomputeIdempotent(T0, ids);
      }
      var i := 0;
      while i < |ids|
        invariant 0 <= i <= |ids|
        invariant records == WithEnds(T0, ids[..i])
      {
        var rec := records[ids[i]];
        if rec.start.None? {
          records := records[ids[i] := rec.(end := None)];
        } else {
          var total := OrZero(rec.duration) + OrZero(rec.bufBefore) + OrZero(rec.bufAfter);
          records := records[ids[i] := rec.(end := Some(rec.start.value + total))];
        }
        assert ids[..i + 1] == ids[..i] + [ids[i]];
        i := i + 1;
      }
      assert ids[..i] == ids;
    }

    /** `_check_no_overlap` over the record set `ids`: it passes exactly when
        no record of `ids` clashes with another record of the table. */
    method CheckNoOverlap(ids: seq<nat>) returns (res: Outcome)
      requires forall id :: id in ids ==> id in records
      ensures res.Pass? <==> forall id, k :: id in ids && k in records ==> !Clash(records, id, k)
      ensures res.Fail? ==> res.error.Overlap? && res.error.id in ids && Rejected(records, res.error.id)
    {
      for i := 0 to |ids|
        invariant forall j, k :: 0 <= j < i && k in records ==> !Clash(records, ids[j], k)
      {
        var id := ids[i];
        var rec := records[id];
        RejectedIffClash(records, id);
        if rec.barber.None? || rec.start.None? || rec.end.None? {
          continue;
        }
        if !IsActive(rec.state) {
          continue;
        }
        if |OverlapDomain(records, id)| > 0 {
          return Fail(Overlap(id));
        }
      }
      res := Pass;
    }

    /** The name defaulting of `create`: each dictionary keeps its name unless
        it has none or the placeholder, and then draws the next sequence value. */
    method DefaultNames(vs: seq<Vals>) returns (names: seq<string>)
      modifies this`seqNext
      ensures |names| == |vs|
      ensures forall j :: 0 <= j < |vs| ==> names[j] == NameAt(vs, j, seqPrefix, old(seqNext))
      ensures seqNext == old(seqNext) + SequenceAdvance(seqPrefix, vs)
    {
      ghost var seq0 := seqNext;
      names := [];
      var i := 0;
      while i < |vs|
        invariant 0 <= i <= |vs|
        invariant |names| == i
        invariant forall j :: 0 <= j < i ==> names[j] == NameAt(vs, j, seqPrefix, seq0)
        invariant seqNext == seq0 + SequenceAdvance(seqPrefix, vs[..i])
      {
        assert vs[..i + 1][..i] == vs[..i];
        var name: string;
        if WantsSequence(vs[i].name) {
          var v := NextByCode();
          name := if v.Some? then v.value else Placeholder;
        } else {
          name := vs[i].name.value;
        }
        names := names + [name];
        i := i + 1;
      }
      assert vs[..i] == vs;
    }

    /** The required-field check of `create`: the first dictionary without a
        barber or a start, or None when every dictionary has both. */
    static method FirstMissing(vs: seq<Vals>) returns (missing: Option<nat>)
      ensures missing.None? <==> AllRequired(vs)
      ensures missing.Some? ==> missing.value < |vs| && !HasRequired(vs[missing.value])
      ensures missing.Some? ==> forall j :: 0 <= j < missing.value ==> HasRequired(vs[j])
    {
      for i := 0 to |vs|
        invariant forall j :: 0 <= j < i ==> HasRequired(vs[j])
      {
        if !HasRequired(vs[i]) {
          return Some(i);
        }
      }
      return None;
    }

    /** A step of `create`: each dictionary with its field defaults under the
        next id, before the computed fields. It is not a framework operation of
        its own: the table is not `Valid()` until `ComputeEndDt` runs. */
    method Store(vs: seq<Vals>, names: seq<string>) returns (ids: seq<nat>)
      requires |vs| <= |names|
      modifies this`records, this`nextId
      ensures records == Staged(old(records), old(nextId), vs, names, |vs|)
      ensures nextId == old(nextId) + |vs|
      ensures |ids| == |vs| && forall j :: 0 <= j < |vs| ==> ids[j] == old(nextId) + j
    {
      ghost var T0, id0 := records, nextId;
      ids := [];
      var i := 0;
      while i < |vs|
        invariant 0 <= i <= |vs|
        invariant nextId == id0 + i && |ids| == i
        invariant forall j :: 0 <= j < i ==> ids[j] == id0 + j
        invariant records == Staged(T0, id0, vs, names, i)
      {
        StagedStep(T0, id0, vs, names, i);
        records := records[nextId := Prepare(vs[i], names[i])];
        ids := ids + [nextId];
        nextId := nextId + 1;
        i := i + 1;
      }
    }

    /** `create`: name defaulting, then storing each dictionary with field
        defaults and its computed end, then the constraint on the new records.
        It goes through exactly when every dictionary has a barber and a start
        and the resulting table keeps the invariant. */
    method Create(vs: seq<Vals>) returns (res: Result<seq<nat>>)
      requires Valid()
      modifies this
      ensures Valid()
      ensures res.Ok? <==> AllRequired(vs) && NoOverlap(Inserted(old(records), old(nextId), vs, seqPrefix, old(seqNext)))
      ensures res.Ok? ==> records == Inserted(old(records), old(nextId), vs, seqPrefix, old(seqNext))
      ensures res.Ok? ==> |res.value| == |vs| && forall i :: 0 <= i < |vs| ==> res.value[i] == old(nextId) + i
      ensures res.Ok? ==> nextId == old(nextId) + |vs| && seqNext == old(seqNext) + SequenceAdvance(seqPrefix, vs)
      ensures res.Err? ==> records == old(records) && nextId == old(nextId) && seqNext == old(seqNext)
      ensures res.Err? && res.error.RequiredMissing? ==> !AllRequired(vs)
    {
      var T0, id0, seq0 := records, nextId, seqNext;

      // Name defaulting.
      var names := DefaultNames(vs);

      // Required fields.
      var missing := FirstMissing(vs);
      if missing.Some? {
        seqNext := seq0;
        return Err(RequiredMissing(missing.value));
      }

      // Storing the records.
      var ids := Store(vs, names);

      ComputeEndDt(ids);
      StagedThenComputed(T0, id0, vs, names, ids, seqPrefix, seq0);
      InsertedKeepsEnds(T0, id0, vs, seqPrefix, seq0);
      InsertedFrame(T0, id0, vs, seqPrefix, seq0, ids);

      var check := CheckNoOverlap(ids);
      if check.Fail? {
        assert !NoOverlap(records);
        records, nextId, seqNext := T0, id0, seq0;
        return Err(check.error);
      }
      NoOverlapAfterCheck(T0, records, ids);
      res := Ok(ids);
    }

    /** A workflow action: every record of `ids` in turn is put into `target`,
        each write followed by the constraint on that record. It goes through
        exactly when all records exist and the resulting table keeps the
        invariant; otherwise nothing changes. */
    method Transition(ids: seq<nat>, target: State) returns (res: Outcome)
      requires Valid()
      modifies this`records
      ensures Valid()
      ensures res.Pass? <==> TransitionAllowed(old(records), ids, target)
      ensures records == if res.Pass? then SetStates(old(records), ids, target) else old(records)
      ensures res.Fail? && res.error.MissingRecord? ==> res.error.id in ids && res.error.id !in old(records)
      ensures res.Fail? && res.error.Overlap? ==> IsActive(target)
    {
      var T0 := records;
      var i := 0;
      while i < |ids|
        invariant 0 <= i <= |ids|
        invariant forall j :: 0 <= j < i ==> ids[j] in T0
        invariant records == SetStates(T0, ids[..i], target)
        invariant NoOverlap(records)
      {
        var id := ids[i];
        if id !in records {
          records := T0;
          return Fail(MissingRecord(id));
        }
        SetStatesStep(T0, ids, i, target);
        records := records[id := records[id].(state := target)];
        var check := CheckNoOverlap([id]);
        if check.Fail? {
          var k :| k in records && Clash(records, id, k);
          StepRejectionBlocks(T0, ids, i, target, k);
          records := T0;
          return check;
        }
        StepKeepsNoOverlap(T0, ids, i, target);
        i := i + 1;
      }
      assert ids[..i] == ids;
      SetStatesKeepsEnds(T0, ids, target);
      res := Pass;
    }

    /** `action_confirm`. */
    method ActionConfirm(ids: seq<nat>) returns (res: Outcome)
      requires Valid()
      modifies this`records
      ensures Valid()
      ensures res.Pass? <==> TransitionAllowed(old(records), ids, Confirmed)
      ensures records == if res.Pass? then SetStates(old(records), ids, Confirmed) else old(records)
    {
      res := Transition(ids, Confirmed);
    }

    /** `action_in_service`. */
    method ActionInService(ids: seq<nat>) returns (res: Outcome)
      requires Valid()
      modifies this`records
      ensures Valid()
      ensures res.Pass? <==> TransitionAllowed(old(records), ids, InService)
      ensures records == if res.Pass? then SetStates(old(records), ids, InService) else old(records)
    {
      res := Transition(ids, InService);
    }

    /** `action_done`: refused only for a record that does not exist. */
    method ActionDone(ids: seq<nat>) returns (res: Outcome)
      requires Valid()
      modifies this`records
      ensures Valid()
      ensures res.Pass? <==> AllPresent(old(records), ids)
      ensures records == if res.Pass? then SetStates(old(records), ids, Done) else old(records)
    {
      InactiveTransitionAllowed(records, ids, Done);
      res := Transition(ids, Done);
    }

    /** `action_cancel`: refused only for a record that does not exist. */
    method ActionCancel(ids: seq<nat>) returns (res: Outcome)
      requires Valid()
      modifies this`records
      ensures Valid()
      ensures res.Pass? <==> AllPresent(old(records), ids)
      ensures records == if res.Pass? then SetStates(old(records), ids, Cancelled) else old(records)
    {
      InactiveTransitionAllowed(records, ids, Cancelled);
      res := Transition(ids, Cancelled);
    }

    /** `action_no_show`: refused only for a record that does not exist. */
    method ActionNoShow(ids: seq<nat>) returns (res: Outcome)
      requires Valid()
      modifies this`records
      ensures Valid()
      ensures res.Pass? <==> AllPresent(old(records), ids)
      ensures records == if res.Pass? then SetStates(old(records), ids, NoShow) else old(records)
    {
      InactiveTransitionAllowed(records, ids, NoShow);
      res := Transition(ids, NoShow);
    }
  }
}

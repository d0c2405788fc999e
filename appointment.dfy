/** Values of the salon appointment record and the pure rules about them:
    field defaults, name defaulting, the derived end time, the overlap test of
    the no-overlap constraint and the invariant it keeps. Datetimes are whole
    minutes. */
module Appointment {

  datatype Option<T> = None | Some(value: T)

  /** Workflow states of an appointment (the `state` selection field). */
  datatype State = Requested | Confirmed | InService | Done | Cancelled | NoShow

  /** The states that take part in the overlap rule. */
  predicate IsActive(s: State) {
    s == Confirmed || s == InService
  }

  /** What a `vals` dictionary passed to `create` says about one field: the key
      is absent (the field default applies), present with a false value, or
      present with a value. */
  datatype Field<T> = Absent | Null | Value(v: T)

  /** The error raised by a write, which aborts it. */
  datatype Error =
    | Overlap(id: nat)             // the no-overlap constraint rejected record `id`
    | MissingRecord(id: nat)       // the record set names a record the table does not hold
    | RequiredMissing(index: nat)  // vals number `index` has no barber or no start

  datatype Outcome = Pass | Fail(error: Error)

  datatype Result<T> = Ok(value: T) | Err(error: Error)

  /** One stored appointment. `None` is an unset (false) column. */
  datatype Record = Record(
    name: string,
    barber: Option<nat>,
    start: Option<int>,
    duration: Option<int>,
    bufBefore: Option<int>,
    bufAfter: Option<int>,
    end: Option<int>,
    state: State)

  /** One dictionary of the `vals_list` given to `create`. */
  datatype Vals = Vals(
    name: Option<string>,
    barber: Field<nat>,
    start: Field<int>,
    duration: Field<int>,
    bufBefore: Field<int>,
    bufAfter: Field<int>,
    state: Option<State>)

  type Records = map<nat, Record>

  // ---------- Field defaults ----------

  const Placeholder: string := "New"
  const DefaultDuration: int := 30
  const DefaultBufferBefore: int := 0
  const DefaultBufferAfter: int := 5
  const DefaultState: State := Requested

  /** The stored value of an integer field: its default when the key is
      absent; an explicit false value is stored as 0. */
  function FieldOr(f: Field<int>, default: int): Option<int> {
    match f
    case Absent => Some(default)
    case Null => Some(0)
    case Value(v) => Some(v)
  }

  function FieldValue<T>(f: Field<T>): Option<T> {
    if f.Value? then Some(f.v) else None
  }

  /** The stored barber: a false or zero many2one id is stored as no barber. */
  function BarberOf(f: Field<nat>): Option<nat> {
    if f.Value? && f.v != 0 then Some(f.v) else None
  }

  /** A dictionary sets both required fields, barber and start. */
  predicate HasRequired(v: Vals) {
    BarberOf(v.barber).Some? && v.start.Value?
  }

  /** The record `create` stores for `v` under `name`, before computed fields. */
  function Prepare(v: Vals, name: string): (r: Record)
    ensures r.name == name && r.end.None?
    ensures r.barber.Some? <==> v.barber.Value? && v.barber.v != 0
    ensures v.barber.Value? && v.barber.v != 0 ==> r.barber == Some(v.barber.v)
    ensures r.start.Some? <==> v.start.Value?
    ensures v.start.Value? ==> r.start == Some(v.start.v)
    ensures v.duration.Absent? ==> r.duration == Some(30)
    ensures v.duration.Null? ==> r.duration == Some(0)
    ensures v.duration.Value? ==> r.duration == Some(v.duration.v)
    ensures v.bufBefore.Absent? ==> r.bufBefore == Some(0)
    ensures v.bufBefore.Null? ==> r.bufBefore == Some(0)
    ensures v.bufBefore.Value? ==> r.bufBefore == Some(v.bufBefore.v)
    ensures v.bufAfter.Absent? ==> r.bufAfter == Some(5)
    ensures v.bufAfter.Null? ==> r.bufAfter == Some(0)
    ensures v.bufAfter.Value? ==> r.bufAfter == Some(v.bufAfter.v)
    ensures v.state.None? ==> r.state == Requested
    ensures v.state.Some? ==> r.state == v.state.value
  {
    Record(name, BarberOf(v.barber), FieldValue(v.start),
           FieldOr(v.duration, DefaultDuration),
           FieldOr(v.bufBefore, DefaultBufferBefore),
           FieldOr(v.bufAfter, DefaultBufferAfter),
           None,
           if v.state.Some? then v.state.value else DefaultState)
  }

  /** The stored record with its computed end. */
  function Materialize(v: Vals, name: string): Record {
    WithEnd(Prepare(v, name))
  }

  /** Barber and start are required fields. */
  predicate AllRequired(vs: seq<Vals>) {
    forall i :: 0 <= i < |vs| ==> HasRequired(vs[i])
  }

  // ---------- Name defaulting ----------

  /** `create` draws a sequence value when the name is absent or the placeholder. */
  predicate WantsSequence(name: Option<string>) {
    name.None? || name.value == Placeholder
  }

  /** How many dictionaries of `vs` draw a sequence value. */
  function CountWanting(vs: seq<Vals>): (n: nat)
    ensures n <= |vs|
  {
    if |vs| == 0 then 0
    else CountWanting(vs[..|vs| - 1]) + (if WantsSequence(vs[|vs| - 1].name) then 1 else 0)
  }

  function DigitChar(d: nat): char
    requires d < 10
  {
    (48 + d) as char
  }

  /** The decimal rendering of `n`. */
  function Digits(n: nat): (s: string)
    ensures |s| > 0
    ensures |s| == 1 <==> n < 10
    ensures forall i :: 0 <= i < |s| ==> '0' <= s[i] <= '9'
  {
    if n < 10 then [DigitChar(n)] else Digits(n / 10) + [DigitChar(n % 10)]
  }

  /** Different numbers have different renderings. */
  lemma {:induction false} DigitsInjective(n: nat, m: nat)
    requires Digits(n) == Digits(m)
    ensures n == m
  {
    if n >= 10 && m >= 10 {
      var dn, dm := Digits(n), Digits(m);
      assert dn[..|dn| - 1] == Digits(n / 10);
      assert dm[..|dm| - 1] == Digits(m / 10);
      DigitsInjective(n / 10, m / 10);
      assert DigitChar(n % 10) == dn[|dn| - 1] == dm[|dm| - 1] == DigitChar(m % 10);
    } else if n < 10 && m < 10 {
      assert DigitChar(n) == Digits(n)[0];
    }
  }

  /** Value number `n` of a sequence whose values are `prefix` followed by the counter. */
  function SequenceValue(prefix: string, n: nat): (r: string)
    ensures |r| > |prefix| && '0' <= r[|r| - 1] <= '9'
    ensures r != Placeholder
  {
    var d := Digits(n);
    assert (prefix + d)[|prefix + d| - 1] == d[|d| - 1];
    prefix + d
  }

  /** The name `create` gives dictionary `i` of `vs`, when the sequence is
      `prefix` (None: no sequence is configured) and its next number is `next`. */
  function NameAt(vs: seq<Vals>, i: nat, prefix: Option<string>, next: nat): (r: string)
    requires i < |vs|
    ensures !WantsSequence(vs[i].name) ==> r == vs[i].name.value
    ensures WantsSequence(vs[i].name) && prefix.None? ==> r == Placeholder
    ensures WantsSequence(vs[i].name) && prefix.Some? ==> r != Placeholder
  {
    if !WantsSequence(vs[i].name) then vs[i].name.value
    else if prefix.Some? then SequenceValue(prefix.value, next + CountWanting(vs[..i]))
    else Placeholder
  }

  /** By how much `create` advances the sequence. */
  function SequenceAdvance(prefix: Option<string>, vs: seq<Vals>): nat {
    if prefix.Some? then CountWanting(vs) else 0
  }

  /** The table after `create` stored `vs` under the ids `base`, `base + 1`, ... */
  function Inserted(T: Records, base: nat, vs: seq<Vals>, prefix: Option<string>, next: nat): Records {
    T + map k: nat | base <= k < base + |vs| :: StoredAt(vs, base, k, prefix, next)
  }

  /** The record `create` stores under id `k` for the dictionaries `vs` given ids from `base`. */
  function StoredAt(vs: seq<Vals>, base: nat, k: nat, prefix: Option<string>, next: nat): Record
    requires base <= k < base + |vs|
  {
    Materialize(vs[k - base], NameAt(vs, k - base, prefix, next))
  }

  // ---------- Derived end time ----------

  function OrZero(x: Option<int>): int {
    if x.Some? then x.value else 0
  }

  /** The end of an appointment: no end without a start; otherwise the start
      plus duration and both buffers, each unset one counting as 0. */
  function EndOf(start: Option<int>, duration: Option<int>, before: Option<int>, after: Option<int>): (r: Option<int>)
    ensures r.Some? <==> start.Some?
    ensures r.Some? ==> r.value - start.value == OrZero(duration) + OrZero(before) + OrZero(after)
    ensures r.Some? && OrZero(duration) >= 0 && OrZero(before) >= 0 && OrZero(after) >= 0 ==> r.value >= start.value
  {
    match start
    case None => None
    case Some(s) => Some(s + OrZero(duration) + OrZero(before) + OrZero(after))
  }

  function WithEnd(r: Record): Record {
    r.(end := EndOf(r.start, r.duration, r.bufBefore, r.bufAfter))
  }

  predicate EndDerived(r: Record) {
    r.end == EndOf(r.start, r.duration, r.bufBefore, r.bufAfter)
  }

  /** Every stored end is the derived one. */
  predicate EndsDerived(T: Records) {
    forall k :: k in T ==> EndDerived(T[k])
  }

  /** The table after the end of each record named in `ids` is recomputed. */
  function WithEnds(T: Records, ids: seq<nat>): Records {
    map k | k in T :: if k in ids then WithEnd(T[k]) else T[k]
  }

  // ---------- The overlap rule ----------

  /** Minute `t` lies in the half-open interval [s, e). */
  predicate Within(t: int, s: int, e: int) {
    s <= t < e
  }

  /** The test of the constraint's search domain: another interval
      [bStart, bEnd) starts before [aStart, aEnd) ends and ends after it starts. */
  predicate Overlaps(aStart: int, aEnd: int, bStart: int, bEnd: int) {
    bStart < aEnd && bEnd > aStart
  }

  /** A record the overlap rule looks at: barber, start and end set, state active. */
  predicate Participates(r: Record) {
    r.barber.Some? && r.start.Some? && r.end.Some? && IsActive(r.state)
  }

  /** Records `a` and `b` are two distinct active bookings of one barber whose
      intervals overlap. */
  predicate Clash(T: Records, a: nat, b: nat) {
    a in T && b in T && a != b && Participates(T[a]) && Participates(T[b]) &&
    T[a].barber == T[b].barber &&
    Overlaps(T[a].start.value, T[a].end.value, T[b].start.value, T[b].end.value)
  }

  /** The invariant of the appointment table. */
  predicate NoOverlap(T: Records) {
    forall a, b :: a in T && b in T ==> !Clash(T, a, b)
  }

  /** The records the constraint's search finds for record `id`: a different
      id, the same barber, an active state, a start before `id`'s end and an
      end after `id`'s start. */
  function OverlapDomain(T: Records, id: nat): set<nat>
    requires id in T && T[id].barber.Some? && T[id].start.Some? && T[id].end.Some?
  {
    set k | k in T && k != id && T[k].barber == T[id].barber && IsActive(T[k].state) &&
            T[k].start.Some? && T[k].end.Some? &&
            T[k].start.value < T[id].end.value && T[k].end.value > T[id].start.value
  }

  /** The constraint rejects record `id`: it is skipped when barber, start or end
      is unset or its state is not active; otherwise it is rejected when the
      search counts at least one record. */
  predicate Rejected(T: Records, id: nat)
    ensures Rejected(T, id) ==> id in T && Participates(T[id])
  {
    if id !in T then false
    else if T[id].barber.None? || T[id].start.None? || T[id].end.None? then false
    else if !IsActive(T[id].state) then false
    else |OverlapDomain(T, id)| > 0
  }

  /** The table after every record named in `ids` is put in state `target`. */
  function SetStates(T: Records, ids: seq<nat>, target: State): (r: Records)
    ensures r.Keys == T.Keys
    ensures forall k :: k in T && k in ids ==> r[k].state == target && r[k].(state := T[k].state) == T[k]
    ensures forall k :: k in T && k !in ids ==> r[k] == T[k]
  {
    map k | k in T :: if k in ids then T[k].(state := target) else T[k]
  }

  predicate AllPresent(T: Records, ids: seq<nat>) {
    forall id :: id in ids ==> id in T
  }

  /** A workflow action on `ids` into `target` goes through. */
  predicate TransitionAllowed(T: Records, ids: seq<nat>, target: State) {
    AllPresent(T, ids) && NoOverlap(SetStates(T, ids, target))
  }

  // ---------- Lemmas: intervals ----------

  lemma OverlapsSymmetric(aStart: int, aEnd: int, bStart: int, bEnd: int)
    ensures Overlaps(aStart, aEnd, bStart, bEnd) == Overlaps(bStart, bEnd, aStart, aEnd)
  {
  }

  /** An appointment that ends exactly when the next one starts does not conflict with it. */
  lemma BackToBackNeverOverlap(aStart: int, aEnd: int, bEnd: int)
    ensures !Overlaps(aStart, aEnd, aEnd, bEnd)
    ensures !Overlaps(aEnd, bEnd, aStart, aEnd)
  {
  }

  /** For non-empty intervals the test is exactly "some minute lies in both". */
  lemma OverlapsIffSharedMinute(aStart: int, aEnd: int, bStart: int, bEnd: int)
    requires aStart < aEnd && bStart < bEnd
    ensures Overlaps(aStart, aEnd, bStart, bEnd) <==>
            exists t :: Within(t, aStart, aEnd) && Within(t, bStart, bEnd)
  {
    if Overlaps(aStart, aEnd, bStart, bEnd) {
      var t := if aStart < bStart then bStart else aStart;
      assert Within(t, aStart, aEnd) && Within(t, bStart, bEnd);
    }
  }

  // ---------- Lemmas: end time ----------

  /** A dictionary that leaves out duration, buffers and state is stored as a
      requested 30-minute service with no buffer before and 5 minutes after,
      so it occupies 35 minutes from its start. */
  lemma CreateDefaults(v: Vals, name: string, s: int)
    requires v.start == Value(s) && v.duration.Absent? && v.bufBefore.Absent? && v.bufAfter.Absent?
    requires v.state.None?
    ensures var r := Materialize(v, name);
            r.state == Requested && r.duration == Some(30) && r.bufBefore == Some(0) && r.bufAfter == Some(5) &&
            r.end == Some(s + 35)
  {
  }

  /** Recomputing the ends of `ids` gives no end to a record without a start,
      leaves every other record as it was, and restores the invariant on `ids`. */
  lemma WithEndsSpec(T: Records, ids: seq<nat>)
    ensures WithEnds(T, ids).Keys == T.Keys
    ensures forall k :: k in T && k !in ids ==> WithEnds(T, ids)[k] == T[k]
    ensures forall k :: k in T && k in ids ==> EndDerived(WithEnds(T, ids)[k])
    ensures forall k :: k in T && k in ids && T[k].start.None? ==> WithEnds(T, ids)[k].end.None?
    ensures forall k :: k in T && k in ids ==> WithEnds(T, ids)[k].(end := T[k].end) == T[k]
  {
  }

  /** Recomputing ends that are already derived changes nothing. */
  lemma RecomputeIdempotent(T: Records, ids: seq<nat>)
    requires EndsDerived(T)
    ensures WithEnds(T, ids) == T
  {
  }

  /** A workflow action keeps every end derived. */
  lemma SetStatesKeepsEnds(T: Records, ids: seq<nat>, target: State)
    requires EndsDerived(T)
    ensures EndsDerived(SetStates(T, ids, target))
  {
  }

  // ---------- Lemmas: the overlap rule ----------

  lemma ClashSymmetric(T: Records, a: nat, b: nat)
    ensures Clash(T, a, b) == Clash(T, b, a)
  {
  }

  /** The constraint's per-record test rejects `id` exactly when `id` clashes
      with some other record. */
  lemma RejectedIffClash(T: Records, id: nat)
    ensures Rejected(T, id) <==> exists k :: Clash(T, id, k)
  {
    if Rejected(T, id) {
      var k :| k in OverlapDomain(T, id);
      assert Clash(T, id, k);
    }
    if k :| Clash(T, id, k) {
      assert k in OverlapDomain(T, id);
    }
  }

  /** The invariant holds exactly when the constraint rejects no record. */
  lemma NoOverlapIffNoneRejected(T: Records)
    ensures NoOverlap(T) <==> forall id :: id in T ==> !Rejected(T, id)
  {
    forall id | id in T {
      RejectedIffClash(T, id);
    }
    if !NoOverlap(T) {
      var a, b :| a in T && b in T && Clash(T, a, b);
      assert a in T && Rejected(T, a);
    }
  }

  /** A record in requested, done, cancelled or no-show state is never
      rejected, whatever it overlaps. */
  lemma InactiveNeverRejected(T: Records, id: nat)
    requires id in T && !IsActive(T[id].state)
    ensures !Rejected(T, id)
    ensures forall k :: !Clash(T, id, k)
  {
  }

  /** A record without barber, start or end is skipped by the constraint. */
  lemma IncompleteNeverRejected(T: Records, id: nat)
    requires id in T && (T[id].barber.None? || T[id].start.None? || T[id].end.None?)
    ensures !Rejected(T, id)
    ensures forall k :: !Clash(T, id, k)
  {
  }

  /** If `T1` differs from a valid `T0` only on the records `changed`, and none
      of those clashes with anything in `T1`, then `T1` is valid. */
  lemma NoOverlapAfterCheck(T0: Records, T1: Records, changed: seq<nat>)
    requires NoOverlap(T0)
    requires forall k :: k in T1 && k !in changed ==> k in T0 && T1[k] == T0[k]
    requires forall a, b :: a in changed ==> !Clash(T1, a, b)
    ensures NoOverlap(T1)
  {
    forall a, b
      ensures !Clash(T1, a, b)
    {
      if Clash(T1, a, b) {
        ClashSymmetric(T1, a, b);
        assert a !in changed && b !in changed;
        assert Clash(T0, a, b);
      }
    }
  }

  /** One step of a workflow action: writing record `ids[i]` extends the
      written prefix by one. */
  lemma SetStatesStep(T: Records, ids: seq<nat>, i: nat, target: State)
    requires i < |ids| && ids[i] in T
    ensures var before := SetStates(T, ids[..i], target);
            before[ids[i] := before[ids[i]].(state := target)] == SetStates(T, ids[..i + 1], target)
  {
    assert ids[..i + 1] == ids[..i] + [ids[i]];
  }

  /** A write of a workflow action that passes the constraint keeps the invariant. */
  lemma StepKeepsNoOverlap(T: Records, ids: seq<nat>, i: nat, target: State)
    requires i < |ids| && ids[i] in T
    requires NoOverlap(SetStates(T, ids[..i], target))
    requires forall k :: k in T ==> !Clash(SetStates(T, ids[..i + 1], target), ids[i], k)
    ensures NoOverlap(SetStates(T, ids[..i + 1], target))
  {
    SetStatesStep(T, ids, i, target);
    NoOverlapAfterCheck(SetStates(T, ids[..i], target), SetStates(T, ids[..i + 1], target), [ids[i]]);
  }

  /** A write of a workflow action that the constraint rejects shows that the
      whole action cannot go through. */
  lemma StepRejectionBlocks(T: Records, ids: seq<nat>, i: nat, target: State, k: nat)
    requires i < |ids|
    requires Clash(SetStates(T, ids[..i + 1], target), ids[i], k)
    ensures IsActive(target)
    ensures !TransitionAllowed(T, ids, target)
  {
    assert ids[i] in ids[..i + 1];
    assert forall x :: x in ids[..i + 1] ==> x in ids;
    ClashPersists(T, ids[..i + 1], ids, target, ids[i], k);
  }

  /** Putting more records into an active state keeps every existing clash. */
  lemma ClashPersists(T: Records, p: seq<nat>, q: seq<nat>, target: State, a: nat, b: nat)
    requires IsActive(target)
    requires forall k :: k in p ==> k in q
    requires Clash(SetStates(T, p, target), a, b)
    ensures Clash(SetStates(T, q, target), a, b)
  {
  }

  /** Moving records into an inactive state can never break the invariant, so
      such an action is refused only for a record that does not exist. */
  lemma InactiveTransitionAllowed(T: Records, ids: seq<nat>, target: State)
    requires NoOverlap(T) && !IsActive(target)
    ensures TransitionAllowed(T, ids, target) <==> AllPresent(T, ids)
  {
    var T1 := SetStates(T, ids, target);
    forall a, b
      ensures !Clash(T1, a, b)
    {
      if Clash(T1, a, b) {
        assert a !in ids && b !in ids;
        assert Clash(T, a, b);
      }
    }
  }

  /** Two overlapping bookings of one barber may both be requested holds, but
      may not both be confirmed. */
  lemma RequestedHoldsMayOverlap()
    ensures var held := map[1 := Record("A", Some(7), Some(600), Some(30), Some(0), Some(5), Some(635), Requested),
                            2 := Record("B", Some(7), Some(610), Some(30), Some(0), Some(5), Some(645), Requested)];
            NoOverlap(held) && !NoOverlap(SetStates(held, [1, 2], Confirmed))
  {
    var held := map[1 := Record("A", Some(7), Some(600), Some(30), Some(0), Some(5), Some(635), Requested),
                     2 := Record("B", Some(7), Some(610), Some(30), Some(0), Some(5), Some(645), Requested)];
    assert Clash(SetStates(held, [1, 2], Confirmed), 1, 2);
  }

  /** Any two overlapping bookings of one barber, with start and end set,
      cannot both be confirmed. */
  lemma OverlappingPairNotBothConfirmed(T: Records, a: nat, b: nat)
    requires a in T && b in T && a != b
    requires T[a].barber.Some? && T[a].barber == T[b].barber
    requires T[a].start.Some? && T[a].end.Some? && T[b].start.Some? && T[b].end.Some?
    requires Overlaps(T[a].start.value, T[a].end.value, T[b].start.value, T[b].end.value)
    ensures !NoOverlap(SetStates(T, [a, b], Confirmed))
  {
    assert Clash(SetStates(T, [a, b], Confirmed), a, b);
  }

  /** A table with no active record satisfies the invariant, however its
      requested holds overlap. */
  lemma HoldsNeverViolate(T: Records)
    requires forall k :: k in T ==> !IsActive(T[k].state)
    ensures NoOverlap(T)
  {
  }

  // ---------- Lemmas: names ----------

  /** Two dictionaries that both draw from the sequence draw different numbers,
      in the order of the list. */
  lemma {:induction false} SequenceNumbersIncrease(vs: seq<Vals>, i: nat, j: nat)
    requires i < j <= |vs| && WantsSequence(vs[i].name)
    ensures CountWanting(vs[..i]) < CountWanting(vs[..j])
    decreases j
  {
    assert vs[..j][..j - 1] == vs[..j - 1];
    if j > i + 1 {
      SequenceNumbersIncrease(vs, i, j - 1);
    } else {
      assert vs[..j - 1] == vs[..i];
    }
  }

  /** A name drawn from a configured sequence is one of the values the batch
      consumes: a number from `next` below `next` plus the number of draws. */
  lemma DrawnNameInRange(vs: seq<Vals>, i: nat, prefix: string, next: nat)
    requires i < |vs| && WantsSequence(vs[i].name)
    ensures exists n :: next <= n < next + CountWanting(vs) && NameAt(vs, i, Some(prefix), next) == SequenceValue(prefix, n)
  {
    SequenceNumbersIncrease(vs, i, |vs|);
    assert vs[..|vs|] == vs;
    assert NameAt(vs, i, Some(prefix), next) == SequenceValue(prefix, next + CountWanting(vs[..i]));
  }

  /** Two dictionaries of one batch that both draw from a configured sequence get different names. */
  lemma SequenceNamesDistinct(vs: seq<Vals>, i: nat, j: nat, prefix: string, next: nat)
    requires i < j < |vs| && WantsSequence(vs[i].name) && WantsSequence(vs[j].name)
    ensures NameAt(vs, i, Some(prefix), next) != NameAt(vs, j, Some(prefix), next)
  {
    SequenceNumbersIncrease(vs, i, j);
    var n, m := next + CountWanting(vs[..i]), next + CountWanting(vs[..j]);
    if SequenceValue(prefix, n) == SequenceValue(prefix, m) {
      assert SequenceValue(prefix, n)[|prefix|..] == Digits(n);
      assert SequenceValue(prefix, m)[|prefix|..] == Digits(m);
      DigitsInjective(n, m);
    }
  }
}

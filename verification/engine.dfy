/** The transition engine shared by order headers and items: given the current status records
    and a rule, deactivate, then activate, and return the whole updated list. */
module StatusEngine {
  import opened Wrappers
  import opened StatusRules

  /** An opaque point in time; only ever copied or compared for equality. */
  datatype Instant = Instant(epochMillis: int)

  /** One status row: which status, whether it currently holds, and when it last changed. */
  datatype StatusRecord<S> = StatusRecord(id: S, active: bool, updatedAt: Instant)

  // ----- vocabulary about record lists -----

  predicate HasId<S(==)>(rs: seq<StatusRecord<S>>, s: S) {
    exists i :: 0 <= i < |rs| && rs[i].id == s
  }

  predicate IsActiveIn<S(==)>(rs: seq<StatusRecord<S>>, s: S) {
    exists i :: 0 <= i < |rs| && rs[i].id == s && rs[i].active
  }

  /** The aggregate invariant: at most one record per status id. */
  predicate UniqueIds<S(==)>(rs: seq<StatusRecord<S>>) {
    forall i, j :: 0 <= i < j < |rs| ==> rs[i].id != rs[j].id
  }

  /** Position `i` holds the first record carrying its id. */
  predicate IsFirstOfId<S(==)>(rs: seq<StatusRecord<S>>, i: int)
    requires 0 <= i < |rs|
  {
    forall j :: 0 <= j < i ==> rs[j].id != rs[i].id
  }

  /** `qs` starts with records carrying the same ids, position by position, as `rs`. */
  predicate KeepsIdsOf<S(==)>(rs: seq<StatusRecord<S>>, qs: seq<StatusRecord<S>>) {
    |rs| <= |qs| && forall i :: 0 <= i < |rs| ==> qs[i].id == rs[i].id
  }

  /** `order` lists the members of `s` once each: an iteration order of the set. */
  predicate Lists<S(==)>(order: seq<S>, s: set<S>) {
    Distinct(order) && (set x | x in order) == s
  }

  // ----- the algorithm -----

  /** Index of the first record with id `s`, if any. */
  function FindFirst<S(==)>(rs: seq<StatusRecord<S>>, s: S): (r: Option<nat>)
    ensures r.None? <==> !HasId(rs, s)
    ensures r.Some? ==> r.value < |rs| && rs[r.value].id == s && IsFirstOfId(rs, r.value)
  {
    if |rs| == 0 then None
    else if rs[0].id == s then Some(0)
    else match FindFirst(rs[1..], s)
      case None => None
      case Some(k) =>
        assert forall j :: 1 <= j <= k + 1 ==> rs[j] == rs[1..][j - 1];
        Some(k + 1)
  }

  /** One record after the deactivate phase. */
  function SwitchedOff<S(==)>(r: StatusRecord<S>, off: set<S>, now: Instant): StatusRecord<S> {
    if r.id in off && r.active then r.(active := false, updatedAt := now) else r
  }

  /** Deactivate phase: every active record whose id is in `off` becomes inactive; an id with
      no active record is silently skipped. */
  function Deactivate<S(==)>(rs: seq<StatusRecord<S>>, off: set<S>, now: Instant): (r: seq<StatusRecord<S>>)
    ensures |r| == |rs| && KeepsIdsOf(rs, r)
    ensures forall i :: 0 <= i < |r| ==> (r[i].active <==> rs[i].active && rs[i].id !in off)
    ensures forall i :: 0 <= i < |r| && (rs[i].id !in off || !rs[i].active) ==> r[i] == rs[i]
  {
    seq(|rs|, i requires 0 <= i < |rs| => SwitchedOff(rs[i], off, now))
  }

  /** A record after activation: flipped to active (and stamped) unless it already was. */
  function Reactivated<S>(r: StatusRecord<S>, now: Instant): StatusRecord<S> {
    if r.active then r else r.(active := true, updatedAt := now)
  }

  /** Activate one id: no-op if its first record is active, reactivate that record in place if
      it is inactive, append a new active record if there is none. */
  function ActivateOne<S(==)>(rs: seq<StatusRecord<S>>, a: S, now: Instant): (r: seq<StatusRecord<S>>)
    ensures KeepsIdsOf(rs, r)
    ensures HasId(rs, a) ==> |r| == |rs|
    ensures !HasId(rs, a) ==> r == rs + [StatusRecord(a, true, now)]
  {
    match FindFirst(rs, a)
    case Some(k) => if rs[k].active then rs else rs[k := Reactivated(rs[k], now)]
    case None => rs + [StatusRecord(a, true, now)]
  }

  /** Activate phase, visiting the ids in the given order. */
  function ActivateAll<S(==)>(rs: seq<StatusRecord<S>>, order: seq<S>, now: Instant): seq<StatusRecord<S>>
    decreases |order|
  {
    if |order| == 0 then rs else ActivateAll(ActivateOne(rs, order[0], now), order[1..], now)
  }

  /** Apply a rule: all deactivations first, then the activations in `order`, an iteration order
      of the rule's activate set. */
  function ApplyRule<S(==,!new)>(rs: seq<StatusRecord<S>>, rule: StatusRule<S>, order: seq<S>, now: Instant)
    : (r: seq<StatusRecord<S>>)
    requires Lists(order, rule.activate)
    ensures Realises(rs, rule, r)
  {
    var out := ActivateAll(Deactivate(rs, rule.deactivate, now), order, now);
    ApplyRuleMatchesReference(rs, rule, order, now);
    PointwiseRealises(rs, rule, order, now, out);
    out
  }

  // ----- what applying a rule promises -----

  /** The observable contract of one application of `rule` turning `rs` into `out`. */
  ghost predicate Realises<S(!new)>(rs: seq<StatusRecord<S>>, rule: StatusRule<S>, out: seq<StatusRecord<S>>) {
    // existing records keep their identity and position
    && KeepsIdsOf(rs, out)
    // ids only switched off are inactive everywhere
    && (forall i :: 0 <= i < |out| && out[i].id in rule.deactivate && out[i].id !in rule.activate
          ==> !out[i].active)
    // every id switched on is active, and it is the first record of that id that holds it
    && (forall a :: a in rule.activate ==> IsActiveIn(out, a))
    && (forall i :: 0 <= i < |out| && out[i].id in rule.activate && IsFirstOfId(out, i) ==> out[i].active)
    // records the rule does not name are untouched
    && (forall i :: 0 <= i < |rs| && rs[i].id !in rule.activate && rs[i].id !in rule.deactivate
          ==> out[i] == rs[i])
    // a record is appended only for an activated id that had no record at all
    && (forall i :: |rs| <= i < |out| ==> out[i].active && out[i].id in rule.activate && !HasId(rs, out[i].id))
    // hence at most one record per id is preserved
    && (UniqueIds(rs) ==> UniqueIds(out))
  }

  /** Under a realised rule, a status the rule does not name is active afterwards exactly when it
      was active before. */
  lemma UntouchedKeepsState<S(!new)>(rs: seq<StatusRecord<S>>, rule: StatusRule<S>, out: seq<StatusRecord<S>>, s: S)
    requires Realises(rs, rule, out) && s !in rule.activate && s !in rule.deactivate
    ensures IsActiveIn(out, s) <==> IsActiveIn(rs, s)
  {
    if IsActiveIn(rs, s) {
      var i :| 0 <= i < |rs| && rs[i].id == s && rs[i].active;
      assert out[i] == rs[i];
    }
    if IsActiveIn(out, s) {
      var i :| 0 <= i < |out| && out[i].id == s && out[i].active;
      if i < |rs| {
        assert rs[i].id == s;
      }
    }
  }

  /** The deactivate phase alone switches off exactly the statuses it is given: those have no
      active record left and every other status is active exactly when it was. */
  lemma DeactivateKeepsOthers<S>(rs: seq<StatusRecord<S>>, off: set<S>, now: Instant)
    ensures forall d :: d in off ==> !IsActiveIn(Deactivate(rs, off, now), d)
    ensures forall s :: s !in off ==> (IsActiveIn(Deactivate(rs, off, now), s) <==> IsActiveIn(rs, s))
  {
    var out := Deactivate(rs, off, now);
    forall s | s !in off ensures IsActiveIn(out, s) <==> IsActiveIn(rs, s) {
      if IsActiveIn(rs, s) {
        var i :| 0 <= i < |rs| && rs[i].id == s && rs[i].active;
        assert out[i].id == s && out[i].active;
      }
    }
  }

  /** A realised move rule leaves its target active and its source with no active record. */
  lemma MoveEffect<S(!new)>(rs: seq<StatusRecord<S>>, rule: StatusRule<S>, out: seq<StatusRecord<S>>, a: S, d: S)
    requires rule.activate == {a} && rule.deactivate == {d} && a != d
    requires Realises(rs, rule, out)
    ensures IsActiveIn(out, a)
    ensures !IsActiveIn(out, d)
  {
    assert a in rule.activate;
    forall i | 0 <= i < |out| && out[i].id == d ensures !out[i].active {
      assert d in rule.deactivate && d !in rule.activate;
    }
  }

  // ----- an independent, position-by-position description of the result -----

  /** What position `i` of the input looks like after the rule, described directly. */
  ghost function ExpectedAt<S>(rs: seq<StatusRecord<S>>, rule: StatusRule<S>, i: int, now: Instant): StatusRecord<S>
    requires 0 <= i < |rs|
  {
    var r := rs[i];
    if r.id in rule.activate && IsFirstOfId(rs, i) then
      (if r.active && r.id !in rule.deactivate then r else r.(active := true, updatedAt := now))
    else if r.id in rule.deactivate && r.active then
      r.(active := false, updatedAt := now)
    else
      r
  }

  /** The new records: one per listed id that has no record yet, in listing order. */
  ghost function Appended<S>(rs: seq<StatusRecord<S>>, order: seq<S>, now: Instant): seq<StatusRecord<S>> {
    if |order| == 0 then []
    else (if HasId(rs, order[0]) then [] else [StatusRecord(order[0], true, now)])
         + Appended(rs, order[1..], now)
  }

  lemma {:induction false} AppendedMembers<S>(rs: seq<StatusRecord<S>>, order: seq<S>, now: Instant, x: StatusRecord<S>)
    ensures x in Appended(rs, order, now) <==>
              x.id in order && !HasId(rs, x.id) && x.active && x.updatedAt == now
  {
    if |order| > 0 {
      AppendedMembers(rs, order[1..], now, x);
      assert order == [order[0]] + order[1..];
    }
  }

  lemma {:induction false} AppendedDistinct<S>(rs: seq<StatusRecord<S>>, order: seq<S>, now: Instant)
    requires Distinct(order)
    ensures forall i, j :: 0 <= i < j < |Appended(rs, order, now)| ==>
              Appended(rs, order, now)[i].id != Appended(rs, order, now)[j].id
  {
    if |order| > 0 {
      var tail := Appended(rs, order[1..], now);
      AppendedDistinct(rs, order[1..], now);
      forall x | x in tail ensures x.id != order[0] {
        AppendedMembers(rs, order[1..], now, x);
      }
    }
  }

  /** Appended only looks at which listed ids have a record. */
  lemma {:induction false} AppendedCongruent<S>(xs: seq<StatusRecord<S>>, ys: seq<StatusRecord<S>>, order: seq<S>, now: Instant)
    requires forall b :: b in order ==> (HasId(xs, b) <==> HasId(ys, b))
    ensures Appended(xs, order, now) == Appended(ys, order, now)
  {
    if |order| > 0 {
      AppendedCongruent(xs, ys, order[1..], now);
    }
  }

  /** Position `i` of `xs` after the activate phase alone. */
  ghost function ActivatedAt<S>(xs: seq<StatusRecord<S>>, order: seq<S>, i: int, now: Instant): StatusRecord<S>
    requires 0 <= i < |xs|
  {
    if xs[i].id in order && IsFirstOfId(xs, i) then Reactivated(xs[i], now) else xs[i]
  }

  /** What activating one id does, position by position. */
  lemma ActivateOneShape<S>(xs: seq<StatusRecord<S>>, a: S, now: Instant)
    ensures var ys := ActivateOne(xs, a, now);
      && (forall b :: b != a ==> (HasId(ys, b) <==> HasId(xs, b)))
      && (forall i :: 0 <= i < |xs| ==> (IsFirstOfId(ys, i) <==> IsFirstOfId(xs, i)))
      && (forall i :: 0 <= i < |xs| ==>
            ys[i] == (if xs[i].id == a && IsFirstOfId(xs, i) then Reactivated(xs[i], now) else xs[i]))
  {
    var ys := ActivateOne(xs, a, now);
    forall b | b != a ensures HasId(ys, b) <==> HasId(xs, b) {
      if HasId(ys, b) { var i :| 0 <= i < |ys| && ys[i].id == b; assert i < |xs| && xs[i].id == b; }
      if HasId(xs, b) { var i :| 0 <= i < |xs| && xs[i].id == b; assert ys[i].id == b; }
    }
    match FindFirst(xs, a)
    case None =>
    case Some(k) =>
      forall i | 0 <= i < |xs| && i != k && xs[i].id == a ensures !IsFirstOfId(xs, i) {
        assert k < i;
      }
  }

  lemma ActivateAllStepPresent<S>(xs: seq<StatusRecord<S>>, order: seq<S>, now: Instant)
    requires Distinct(order) && |order| > 0 && HasId(xs, order[0])
    requires var ys := ActivateOne(xs, order[0], now); var zs := ActivateAll(ys, order[1..], now);
      && |zs| == |ys| + |Appended(ys, order[1..], now)|
      && (forall i :: 0 <= i < |ys| ==> zs[i] == ActivatedAt(ys, order[1..], i, now))
      && zs[|ys|..] == Appended(ys, order[1..], now)
    ensures var zs := ActivateAll(xs, order, now);
      && |zs| == |xs| + |Appended(xs, order, now)|
      && (forall i :: 0 <= i < |xs| ==> zs[i] == ActivatedAt(xs, order, i, now))
      && zs[|xs|..] == Appended(xs, order, now)
  {
    var a, rest := order[0], order[1..];
    assert a !in rest;
    assert forall b :: b in order <==> b == a || b in rest;
    var ys := ActivateOne(xs, a, now);
    ActivateOneShape(xs, a, now);
    AppendedCongruent(xs, ys, rest, now);
    assert Appended(xs, order, now) == Appended(xs, rest, now);
  }

  lemma ActivateAllStepAbsent<S>(xs: seq<StatusRecord<S>>, order: seq<S>, now: Instant)
    requires Distinct(order) && |order| > 0 && !HasId(xs, order[0])
    requires var ys := ActivateOne(xs, order[0], now); var zs := ActivateAll(ys, order[1..], now);
      && |zs| == |ys| + |Appended(ys, order[1..], now)|
      && (forall i :: 0 <= i < |ys| ==> zs[i] == ActivatedAt(ys, order[1..], i, now))
      && zs[|ys|..] == Appended(ys, order[1..], now)
    ensures var zs := ActivateAll(xs, order, now);
      && |zs| == |xs| + |Appended(xs, order, now)|
      && (forall i :: 0 <= i < |xs| ==> zs[i] == ActivatedAt(xs, order, i, now))
      && zs[|xs|..] == Appended(xs, order, now)
  {
    var a, rest := order[0], order[1..];
    assert a !in rest;
    var ys := ActivateOne(xs, a, now);
    var zs := ActivateAll(ys, rest, now);
    assert ys == xs + [StatusRecord(a, true, now)];
    ActivateOneShape(xs, a, now);
    AppendedCongruent(xs, ys, rest, now);
    assert Appended(xs, order, now) == [StatusRecord(a, true, now)] + Appended(xs, rest, now);
    assert zs[|xs|] == StatusRecord(a, true, now);
    SplitAt(zs, |xs|);
    forall i | 0 <= i < |xs| ensures zs[i] == ActivatedAt(xs, order, i, now) {
      assert xs[i].id != a;
    }
  }

  /** A suffix is its first element followed by the rest. */
  lemma SplitAt<T>(zs: seq<T>, n: nat)
    requires n < |zs|
    ensures zs[n..] == [zs[n]] + zs[n + 1..]
  {
  }

  /** The activate phase reactivates first records in place and appends the missing ids. */
  lemma {:induction false} ActivateAllShape<S>(xs: seq<StatusRecord<S>>, order: seq<S>, now: Instant)
    requires Distinct(order)
    ensures var ys := ActivateAll(xs, order, now);
      && |ys| == |xs| + |Appended(xs, order, now)|
      && (forall i :: 0 <= i < |xs| ==> ys[i] == ActivatedAt(xs, order, i, now))
      && ys[|xs|..] == Appended(xs, order, now)
    decreases |order|
  {
    if |order| > 0 {
      ActivateAllShape(ActivateOne(xs, order[0], now), order[1..], now);
      if HasId(xs, order[0]) {
        ActivateAllStepPresent(xs, order, now);
      } else {
        ActivateAllStepAbsent(xs, order, now);
      }
    }
  }

  /** The sequential deactivate-then-activate algorithm yields exactly the position-by-position
      description, followed by the appended records. */
  lemma ApplyRuleMatchesReference<S>(rs: seq<StatusRecord<S>>, rule: StatusRule<S>, order: seq<S>, now: Instant)
    requires Lists(order, rule.activate)
    ensures Pointwise(rs, rule, order, now, ActivateAll(Deactivate(rs, rule.deactivate, now), order, now))
  {
    var xs := Deactivate(rs, rule.deactivate, now);
    ActivateAllShape(xs, order, now);
    forall b | b in order ensures HasId(xs, b) <==> HasId(rs, b) {
      if HasId(xs, b) { var i :| 0 <= i < |xs| && xs[i].id == b; assert rs[i].id == b; }
      if HasId(rs, b) { var i :| 0 <= i < |rs| && rs[i].id == b; assert xs[i].id == b; }
    }
    AppendedCongruent(xs, rs, order, now);
    forall i | 0 <= i < |rs| ensures ActivatedAt(xs, order, i, now) == ExpectedAt(rs, rule, i, now) {
      assert IsFirstOfId(xs, i) <==> IsFirstOfId(rs, i);
      assert rs[i].id in order <==> rs[i].id in rule.activate by {
        assert rs[i].id in order <==> rs[i].id in (set x | x in order);
      }
    }
  }

  /** The facts the position-by-position description gives about a list `out`. */
  ghost predicate Pointwise<S>(rs: seq<StatusRecord<S>>, rule: StatusRule<S>, order: seq<S>, now: Instant,
                               out: seq<StatusRecord<S>>)
  {
    && |out| == |rs| + |Appended(rs, order, now)|
    && (forall i :: 0 <= i < |rs| ==> out[i] == ExpectedAt(rs, rule, i, now))
    && out[|rs|..] == Appended(rs, order, now)
  }

  lemma PointwiseTail<S>(rs: seq<StatusRecord<S>>, rule: StatusRule<S>, order: seq<S>, now: Instant,
                         out: seq<StatusRecord<S>>)
    requires Lists(order, rule.activate) && Pointwise(rs, rule, order, now, out)
    ensures forall i :: |rs| <= i < |out| ==> out[i].active && out[i].id in rule.activate && !HasId(rs, out[i].id)
  {
    var app := Appended(rs, order, now);
    forall i | |rs| <= i < |out| ensures out[i].active && out[i].id in rule.activate && !HasId(rs, out[i].id) {
      assert out[i] == app[i - |rs|];
      AppendedMembers(rs, order, now, out[i]);
      assert out[i].id in (set y | y in order);
    }
  }

  lemma PointwiseActivates<S(!new)>(rs: seq<StatusRecord<S>>, rule: StatusRule<S>, order: seq<S>, now: Instant,
                                    out: seq<StatusRecord<S>>)
    requires Lists(order, rule.activate) && Pointwise(rs, rule, order, now, out)
    ensures forall a :: a in rule.activate ==> IsActiveIn(out, a)
  {
    forall a | a in rule.activate ensures IsActiveIn(out, a) {
      assert a in (set y | y in order);
      match FindFirst(rs, a)
      case Some(k) =>
        assert out[k] == ExpectedAt(rs, rule, k, now);
      case None =>
        var x := StatusRecord(a, true, now);
        var app := Appended(rs, order, now);
        AppendedMembers(rs, order, now, x);
        var j :| 0 <= j < |app| && app[j] == x;
        assert out[|rs| + j] == x;
    }
  }

  lemma PointwiseFirstActive<S>(rs: seq<StatusRecord<S>>, rule: StatusRule<S>, order: seq<S>, now: Instant,
                                out: seq<StatusRecord<S>>)
    requires Lists(order, rule.activate) && Pointwise(rs, rule, order, now, out)
    ensures forall i :: 0 <= i < |out| && out[i].id in rule.activate && IsFirstOfId(out, i) ==> out[i].active
  {
    PointwiseTail(rs, rule, order, now, out);
    forall i | 0 <= i < |rs| && out[i].id in rule.activate && IsFirstOfId(out, i) ensures out[i].active {
      assert IsFirstOfId(rs, i) by {
        forall j | 0 <= j < i ensures rs[j].id != rs[i].id { assert out[j].id == rs[j].id; }
      }
    }
  }

  lemma PointwiseDeactivates<S>(rs: seq<StatusRecord<S>>, rule: StatusRule<S>, order: seq<S>, now: Instant,
                                out: seq<StatusRecord<S>>)
    requires Lists(order, rule.activate) && Pointwise(rs, rule, order, now, out)
    ensures forall i :: 0 <= i < |out| && out[i].id in rule.deactivate && out[i].id !in rule.activate
              ==> !out[i].active
  {
    PointwiseTail(rs, rule, order, now, out);
  }

  lemma PointwiseUnique<S>(rs: seq<StatusRecord<S>>, rule: StatusRule<S>, order: seq<S>, now: Instant,
                           out: seq<StatusRecord<S>>)
    requires Lists(order, rule.activate) && Pointwise(rs, rule, order, now, out) && UniqueIds(rs)
    ensures UniqueIds(out)
  {
    var app := Appended(rs, order, now);
    AppendedDistinct(rs, order, now);
    PointwiseTail(rs, rule, order, now, out);
    forall i, j | 0 <= i < j < |out| ensures out[i].id != out[j].id {
      if i >= |rs| {
        assert out[i] == app[i - |rs|] && out[j] == app[j - |rs|];
      } else if j >= |rs| {
        assert rs[i].id == out[i].id;
      }
    }
  }

  /** The position-by-position description satisfies the contract. */
  lemma PointwiseRealises<S(!new)>(rs: seq<StatusRecord<S>>, rule: StatusRule<S>, order: seq<S>, now: Instant,
                                   out: seq<StatusRecord<S>>)
    requires Lists(order, rule.activate) && Pointwise(rs, rule, order, now, out)
    ensures Realises(rs, rule, out)
  {
    PointwiseTail(rs, rule, order, now, out);
    PointwiseActivates(rs, rule, order, now, out);
    PointwiseDeactivates(rs, rule, order, now, out);
    PointwiseFirstActive(rs, rule, order, now, out);
    if UniqueIds(rs) {
      PointwiseUnique(rs, rule, order, now, out);
    }
  }

  // ----- consequences -----

  lemma {:induction false} AppendedNothing<S>(rs: seq<StatusRecord<S>>, order: seq<S>, now: Instant)
    requires forall b :: b in order ==> HasId(rs, b)
    ensures Appended(rs, order, now) == []
  {
    if |order| > 0 {
      AppendedNothing(rs, order[1..], now);
    }
  }

  /** For a rule whose two sets are disjoint, a second application changes nothing: the
      switched-off ids have no active record left and the switched-on ids are already active. */
  lemma ApplyRuleIdempotent<S(!new)>(rs: seq<StatusRecord<S>>, rule: StatusRule<S>, order: seq<S>,
                                        now: Instant, later: Instant)
    requires Lists(order, rule.activate) && rule.IsDisjoint()
    ensures ApplyRule(ApplyRule(rs, rule, order, now), rule, order, later) == ApplyRule(rs, rule, order, now)
  {
    var once := ApplyRule(rs, rule, order, now);
    var twice := ApplyRule(once, rule, order, later);
    ApplyRuleMatchesReference(once, rule, order, later);
    forall b | b in order ensures HasId(once, b) {
      assert b in (set y | y in order);
      assert IsActiveIn(once, b);
    }
    AppendedNothing(once, order, later);
    forall i | 0 <= i < |once| ensures twice[i] == once[i] {
      assert twice[i] == ExpectedAt(once, rule, i, later);
    }
  }

  /** A sequence of pairwise different values holds each of its members exactly once. */
  lemma {:induction false} DistinctMultiplicity<T>(xs: seq<T>, x: T)
    requires forall i, j :: 0 <= i < j < |xs| ==> xs[i] != xs[j]
    ensures multiset(xs)[x] == if x in xs then 1 else 0
  {
    if |xs| > 0 {
      assert xs == [xs[0]] + xs[1..];
      DistinctMultiplicity(xs[1..], x);
    }
  }

  /** Which iteration order of the activate set is used only permutes the appended records:
      the existing records come out identical. */
  lemma ApplyRuleOrderIndependent<S(!new)>(rs: seq<StatusRecord<S>>, rule: StatusRule<S>,
                                              order1: seq<S>, order2: seq<S>, now: Instant)
    requires Lists(order1, rule.activate) && Lists(order2, rule.activate)
    ensures var out1, out2 := ApplyRule(rs, rule, order1, now), ApplyRule(rs, rule, order2, now);
      && |out1| == |out2|
      && out1[..|rs|] == out2[..|rs|]
      && multiset(out1[|rs|..]) == multiset(out2[|rs|..])
  {
    ApplyRuleMatchesReference(rs, rule, order1, now);
    ApplyRuleMatchesReference(rs, rule, order2, now);
    AppendedPermutation(rs, order1, order2, rule.activate, now);
    PointwiseAgree(rs, rule, order1, order2, now, ApplyRule(rs, rule, order1, now), ApplyRule(rs, rule, order2, now));
  }

  /** Two listings of the same set append the same records, possibly in another order. */
  lemma AppendedPermutation<S>(rs: seq<StatusRecord<S>>, order1: seq<S>, order2: seq<S>, ids: set<S>, now: Instant)
    requires Lists(order1, ids) && Lists(order2, ids)
    ensures multiset(Appended(rs, order1, now)) == multiset(Appended(rs, order2, now))
    ensures |Appended(rs, order1, now)| == |Appended(rs, order2, now)|
  {
    var app1, app2 := Appended(rs, order1, now), Appended(rs, order2, now);
    forall x ensures multiset(app1)[x] == multiset(app2)[x] {
      AppendedCount(rs, order1, now, x);
      AppendedCount(rs, order2, now, x);
      assert x.id in order1 <==> x.id in ids;
      assert x.id in order2 <==> x.id in ids;
    }
    SameCounts(app1, app2);
  }

  /** Two lists holding every value equally often are permutations of each other. */
  lemma SameCounts<T>(xs: seq<T>, ys: seq<T>)
    requires forall x :: multiset(xs)[x] == multiset(ys)[x]
    ensures multiset(xs) == multiset(ys) && |xs| == |ys|
  {
    assert multiset(xs) == multiset(ys);
    assert |xs| == |multiset(xs)| == |multiset(ys)| == |ys|;
  }

  /** Over a duplicate-free listing, each new record is appended exactly once. */
  lemma AppendedCount<S>(rs: seq<StatusRecord<S>>, order: seq<S>, now: Instant, x: StatusRecord<S>)
    requires Distinct(order)
    ensures multiset(Appended(rs, order, now))[x] ==
              if x.id in order && !HasId(rs, x.id) && x.active && x.updatedAt == now then 1 else 0
  {
    AppendedDistinct(rs, order, now);
    AppendedMembers(rs, order, now, x);
    DistinctMultiplicity(Appended(rs, order, now), x);
  }

  /** Two results described position by position agree on the existing records, and their tails
      are permutations of each other when the appended records are. */
  lemma PointwiseAgree<S>(rs: seq<StatusRecord<S>>, rule: StatusRule<S>, order1: seq<S>, order2: seq<S>,
                          now: Instant, out1: seq<StatusRecord<S>>, out2: seq<StatusRecord<S>>)
    requires Pointwise(rs, rule, order1, now, out1) && Pointwise(rs, rule, order2, now, out2)
    requires multiset(Appended(rs, order1, now)) == multiset(Appended(rs, order2, now))
    requires |Appended(rs, order1, now)| == |Appended(rs, order2, now)|
    ensures |out1| == |out2|
    ensures out1[..|rs|] == out2[..|rs|]
    ensures multiset(out1[|rs|..]) == multiset(out2[|rs|..])
  {
    forall i | 0 <= i < |rs| ensures out1[..|rs|][i] == out2[..|rs|][i] {
      assert out1[i] == ExpectedAt(rs, rule, i, now) == out2[i];
    }
  }
}

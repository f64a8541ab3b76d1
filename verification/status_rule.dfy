/** An (activate, deactivate) pair of status-id sets, parameterised over one status enumeration. */
module StatusRules {

  /** Which statuses a transaction turns on and which it turns off. Because the type parameter
      is a single status enumeration, an order rule can only name order statuses and an item
      rule only item statuses. */
  datatype StatusRule<S> = StatusRule(activate: set<S>, deactivate: set<S>) {

    /** A rule that changes nothing. */
    predicate IsEmpty() {
      activate == {} && deactivate == {}
    }

    /** No status id is both switched on and switched off. */
    predicate IsDisjoint() {
      activate !! deactivate
    }
  }

  /** True when the list names no status twice (the unmodifiable-set factory rejects duplicates). */
  predicate Distinct<S(==)>(xs: seq<S>) {
    forall i, j :: 0 <= i < j < |xs| ==> xs[i] != xs[j]
  }

  /** The rule that activates exactly the listed statuses and deactivates none. */
  function Activating<S(==,!new)>(xs: seq<S>): (r: StatusRule<S>)
    requires Distinct(xs)
    ensures forall s :: s in r.activate <==> s in xs
    ensures r.deactivate == {}
    ensures r.IsEmpty() <==> |xs| == 0
  {
    var r := StatusRule(set s | s in xs, {});
    assert |xs| > 0 ==> xs[0] in r.activate;
    r
  }

  /** The rule that deactivates exactly the listed statuses and activates none. */
  function Deactivating<S(==,!new)>(xs: seq<S>): (r: StatusRule<S>)
    requires Distinct(xs)
    ensures r.activate == {}
    ensures forall s :: s in r.deactivate <==> s in xs
    ensures r.IsEmpty() <==> |xs| == 0
  {
    var r := StatusRule({}, set s | s in xs);
    assert |xs| > 0 ==> xs[0] in r.deactivate;
    r
  }

  /** Moving from one status to another: activate `a`, deactivate `d`. */
  function Move<S>(a: S, d: S): (r: StatusRule<S>)
    ensures r.activate == {a} && r.deactivate == {d}
    ensures !r.IsEmpty()
    ensures r.IsDisjoint() <==> a != d
  {
    StatusRule({a}, {d})
  }
}

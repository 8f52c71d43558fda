/**
 * The documented contract of a Bitwuzla solver instance: assertion levels
 * with push and pop, the transient assumption set, the last-result
 * register that gates model and unsat queries, the options that freeze,
 * and the termination callback.  The decision procedure is an oracle:
 * it decides the asserted formulas under the assumptions, and on the
 * formula of a check it reports failed assumptions, unsat-core members
 * and model values.
 */
module BitwuzlaApi {
  import opened Terms
  import opened BvValues

  /** A satisfiability result (BitwuzlaResult). */
  datatype Result = Sat | Unsat | Unknown

  /** The numeric code of a result in the C interface. */
  function ResultCode(r: Result): int
  {
    match r
    case Sat => 10
    case Unsat => 20
    case Unknown => 0
  }

  /** The result a numeric code stands for, if any. */
  function ResultOfCode(code: int): (r: Option<Result>)
    ensures r.Some? <==> code == 0 || code == 10 || code == 20
  {
    if code == 10 then Some(Sat)
    else if code == 20 then Some(Unsat)
    else if code == 0 then Some(Unknown)
    else None
  }

  /** Every result has a code, the codes are distinct, and a code decodes back to its result. */
  lemma {:induction false} ResultCodesRoundTrip(r: Result, code: int)
    ensures ResultOfCode(ResultCode(r)) == Some(r)
    ensures ResultOfCode(code) == Some(r) <==> code == ResultCode(r)
  {
    match r
    case Sat =>
    case Unsat =>
    case Unknown =>
  }

  /** Why a call was refused; a refused call changes nothing. */
  datatype Error =
    | NotIncremental        // push, pop, assume, or a second check, without incremental solving
    | PopUnderflow          // popping more levels than were pushed
    | LastResultNotSat      // a model query when the last check was not SAT
    | LastResultNotUnsat    // an unsat query when the last check was not UNSAT
    | IncrementalFrozen     // toggling incremental solving after a check
    | RewriteLevelFrozen    // changing the rewrite level once terms exist
    | InvalidValue          // an option value out of range

  datatype Status = Ok | Failed(error: Error)

  datatype Answer<T> = Answer(value: T) | Refused(error: Error)

  /** The options whose documented constraints are modelled. */
  datatype OptionKind = Incremental | RewriteLevel

  /** A termination callback and the opaque state it is called with. */
  datatype TerminationCallback = TerminationCallback(fun: nat -> int, state: nat)

  /** The decision procedure, as functions of the asserted formulas and the assumptions of a check. */
  datatype Oracle = Oracle(
    sat: (seq<Ref>, seq<Ref>) -> Result,
    failed: (seq<Ref>, seq<Ref>, Ref) -> bool,
    inCore: (seq<Ref>, seq<Ref>, Ref) -> bool,
    value: (seq<Ref>, seq<Ref>, Ref) -> Ref)

  /** The assertions of all levels, bottom level first. */
  function Flatten(levels: seq<seq<Ref>>): (fs: seq<Ref>)
    ensures forall f :: f in fs <==> exists i :: 0 <= i < |levels| && f in levels[i]
    decreases |levels|
  {
    if levels == [] then []
    else
      var k := |levels| - 1;
      assert forall i :: 0 <= i < k ==> levels[..k][i] == levels[i];
      Flatten(levels[..k]) + levels[k]
  }

  lemma {:induction false} FlattenAppend(a: seq<seq<Ref>>, b: seq<seq<Ref>>)
    ensures Flatten(a + b) == Flatten(a) + Flatten(b)
    decreases |b|
  {
    if b == [] {
      assert a + b == a;
    } else {
      var k := |b| - 1;
      assert (a + b)[..|a + b| - 1] == a + b[..k];
      FlattenAppend(a, b[..k]);
    }
  }

  /** Levels without assertions contribute nothing. */
  lemma {:induction false} FlattenEmptyLevels(n: nat)
    ensures Flatten(EmptyLevels(n)) == []
  {
    if n > 0 {
      assert EmptyLevels(n)[..n - 1] == EmptyLevels(n - 1);
      FlattenEmptyLevels(n - 1);
    }
  }

  function EmptyLevels(n: nat): (ls: seq<seq<Ref>>)
    ensures |ls| == n && forall i :: 0 <= i < n ==> ls[i] == []
  {
    seq(n, _ => [])
  }

  /** The members of xs, in order, that keep reports. */
  function Select(xs: seq<Ref>, keep: Ref -> bool): (ys: seq<Ref>)
    ensures |ys| <= |xs|
    ensures forall y :: y in ys <==> y in xs && keep(y)
    decreases |xs|
  {
    if xs == [] then []
    else
      var k := |xs| - 1;
      assert forall x :: x in xs <==> x in xs[..k] || x == xs[k];
      Select(xs[..k], keep) + if keep(xs[k]) then [xs[k]] else []
  }

  /** A Bitwuzla instance (struct Bitwuzla). */
  class Bitwuzla {
    const oracle: Oracle
    var incremental: bool
    var rewriteLevel: nat
    /** The assertion levels; level 0 is never popped. */
    var levels: seq<seq<Ref>>
    /** The assumptions for the next check. */
    var assumptions: seq<Ref>
    /** The result of the last check, if there was one. */
    var lastResult: Option<Result>
    /** The assertions and the assumptions of the last check. */
    var checkedAssertions: seq<Ref>
    var checkedAssumptions: seq<Ref>
    var termsCreated: bool
    var termination: Option<TerminationCallback>

    /**
     * Level 0 exists, the rewrite level is in range, and a term that is
     * asserted or assumed was created, so the rewrite level is frozen.
     */
    ghost predicate Valid()
      reads this`levels, this`rewriteLevel, this`assumptions, this`termsCreated
    {
      && |levels| >= 1 && rewriteLevel <= 3
      && (Assertions() != [] || assumptions != [] ==> termsCreated)
    }

    /** The asserted formulas of every level. */
    function Assertions(): seq<Ref>
      reads this`levels
    {
      Flatten(levels)
    }

    /** A fresh instance (bitwuzla_new): not incremental, full rewriting, nothing asserted or assumed. */
    constructor (oracle: Oracle)
      ensures Valid() && this.oracle == oracle
      ensures !incremental && rewriteLevel == 3 && levels == [[]] && Assertions() == [] && assumptions == []
      ensures lastResult == None && !termsCreated && termination == None
    {
      this.oracle := oracle;
      incremental, rewriteLevel := false, 3;
      levels, assumptions := [[]], [];
      lastResult := None;
      checkedAssertions, checkedAssumptions := [], [];
      termsCreated, termination := false, None;
      new;
      assert Flatten([[]]) == Flatten([]) + [];
    }

    // -------------------------------------------------------------------
    // Options

    /**
     * bitwuzla_set_option for the options with documented constraints:
     * incremental solving is 0 or 1 and is frozen by the first check; the
     * rewrite level is 0 to 3 and is frozen by the first term.
     */
    method SetOption(opt: OptionKind, val: nat) returns (st: Status)
      requires Valid()
      modifies this`incremental, this`rewriteLevel
      ensures Valid()
      ensures opt == Incremental ==>
                st == (if lastResult.Some? then Failed(IncrementalFrozen) else if val > 1 then Failed(InvalidValue) else Ok)
      ensures opt == RewriteLevel ==>
                st == (if termsCreated then Failed(RewriteLevelFrozen) else if val > 3 then Failed(InvalidValue) else Ok)
      ensures incremental == if st.Ok? && opt == Incremental then val == 1 else old(incremental)
      ensures rewriteLevel == if st.Ok? && opt == RewriteLevel then val else old(rewriteLevel)
    {
      match opt
      case Incremental =>
        if lastResult.Some? {
          return Failed(IncrementalFrozen);
        }
        if val > 1 {
          return Failed(InvalidValue);
        }
        incremental := val == 1;
        st := Ok;
      case RewriteLevel =>
        if termsCreated {
          return Failed(RewriteLevelFrozen);
        }
        if val > 3 {
          return Failed(InvalidValue);
        }
        rewriteLevel := val;
        st := Ok;
    }

    /**
     * Creating a term: the hash-consed term is its structural value, and
     * from now on the instance has terms.
     */
    method Intern(t: Ref) returns (r: Ref)
      modifies this`termsCreated
      ensures r == t && termsCreated
    {
      termsCreated := true;
      r := t;
    }

    /** bitwuzla_mk_bv_value_uint64 on the instance: the truncated value of width w. */
    method MkBvValueUint64(w: nat, value: nat) returns (r: Ref)
      requires w > 0 && value < Pow2(64)
      modifies this`termsCreated
      ensures termsCreated
      ensures r.node.sort == BvSort(w) && r == MkBvConst(BvSort(w), Uint64(w, value))
      ensures r.node.kind.bits < Pow2(w)
    {
      r := Intern(MkBvConst(BvSort(w), Uint64(w, value)));
    }

    // -------------------------------------------------------------------
    // Assertion levels and assumptions

    /** bitwuzla_push: n new empty levels; requires incremental solving. */
    method Push(n: nat) returns (st: Status)
      requires Valid()
      modifies this`levels
      ensures Valid()
      ensures st == if incremental then Ok else Failed(NotIncremental)
      ensures st.Ok? ==> |levels| == |old(levels)| + n && levels[..|old(levels)|] == old(levels)
      ensures st.Failed? ==> levels == old(levels)
      ensures Assertions() == old(Assertions())
    {
      if !incremental {
        return Failed(NotIncremental);
      }
      var empty := EmptyLevels(n);
      FlattenAppend(levels, empty);
      FlattenEmptyLevels(n);
      levels := levels + empty;
      st := Ok;
    }

    /**
     * bitwuzla_pop: drops the top n levels with everything asserted in
     * them; requires incremental solving, and level 0 stays.
     */
    method Pop(n: nat) returns (st: Status)
      requires Valid()
      modifies this`levels
      ensures Valid()
      ensures st == if !incremental then Failed(NotIncremental)
                    else if n >= |old(levels)| then Failed(PopUnderflow) else Ok
      ensures st.Ok? ==> levels == old(levels)[..|old(levels)| - n]
      ensures st.Ok? ==> old(Assertions()) == Assertions() + Flatten(old(levels)[|old(levels)| - n..])
      ensures st.Failed? ==> levels == old(levels)
    {
      if !incremental {
        return Failed(NotIncremental);
      }
      if n >= |levels| {
        return Failed(PopUnderflow);
      }
      var k := |levels| - n;
      assert levels == levels[..k] + levels[k..];
      FlattenAppend(levels[..k], levels[k..]);
      levels := levels[..k];
      st := Ok;
    }

    /** bitwuzla_assert: adds t to the top level; t is a term, so the instance has terms. */
    method Assert(t: Ref)
      requires Valid()
      modifies this`levels, this`termsCreated
      ensures Valid() && termsCreated
      ensures |levels| == |old(levels)| && levels[..|levels| - 1] == old(levels)[..|levels| - 1]
      ensures Assertions() == old(Assertions()) + [t]
    {
      termsCreated := true;
      var k := |levels| - 1;
      var top := levels[k];
      assert levels == levels[..k] + [top];
      FlattenAppend(levels[..k], [top]);
      FlattenAppend(levels[..k], [top + [t]]);
      levels := levels[..k] + [top + [t]];
    }

    /**
     * bitwuzla_assume: adds t to the assumptions of the next check; requires
     * incremental solving.  t is a term, so the instance has terms.
     */
    method Assume(t: Ref) returns (st: Status)
      requires Valid()
      modifies this`assumptions, this`termsCreated
      ensures Valid() && termsCreated
      ensures st == if incremental then Ok else Failed(NotIncremental)
      ensures assumptions == if st.Ok? then old(assumptions) + [t] else old(assumptions)
    {
      termsCreated := true;
      if !incremental {
        return Failed(NotIncremental);
      }
      assumptions := assumptions + [t];
      st := Ok;
    }

    /** bitwuzla_fixate_assumptions: asserts every assumption on the top level; none is left assumed. */
    method FixateAssumptions()
      requires Valid()
      modifies this`levels, this`assumptions
      ensures Valid()
      ensures Assertions() == old(Assertions()) + old(assumptions)
      ensures |levels| == |old(levels)| && assumptions == []
    {
      var k := |levels| - 1;
      var top := levels[k];
      assert levels == levels[..k] + [top];
      FlattenAppend(levels[..k], [top]);
      FlattenAppend(levels[..k], [top + assumptions]);
      levels := levels[..k] + [top + assumptions];
      assumptions := [];
    }

    /** bitwuzla_reset_assumptions: drops every assumption without asserting it. */
    method ResetAssumptions()
      requires Valid()
      modifies this`assumptions
      ensures Valid() && assumptions == []
    {
      assumptions := [];
    }

    // -------------------------------------------------------------------
    // Termination

    /** bitwuzla_set_termination_callback. */
    method SetTerminationCallback(fun: nat -> int, state: nat)
      modifies this`termination
      ensures termination == Some(TerminationCallback(fun, state))
    {
      termination := Some(TerminationCallback(fun, state));
    }

    /** The instance is terminated: its callback, called on its state, reports a value above 0. */
    predicate Terminated()
      reads this`termination
    {
      termination.Some? && termination.value.fun(termination.value.state) > 0
    }

    /** bitwuzla_terminate: calls the callback if there is one; true when terminated. */
    method Terminate() returns (terminated: bool)
      ensures terminated <==> termination.Some? && termination.value.fun(termination.value.state) > 0
      ensures termination == None ==> !terminated
    {
      terminated := false;
      if termination.Some? {
        var cb := termination.value;
        terminated := cb.fun(cb.state) > 0;
      }
    }

    /** bitwuzla_get_termination_callback_state: the state the callback was configured with. */
    method GetTerminationCallbackState() returns (state: Option<nat>)
      ensures state.Some? <==> termination.Some?
      ensures termination.Some? ==> state.value == termination.value.state
    {
      state := None;
      if termination.Some? {
        state := Some(termination.value.state);
      }
    }

    // -------------------------------------------------------------------
    // Checking

    /**
     * bitwuzla_check_sat: decides the conjunction of the assertions and the
     * assumptions, or gives UNKNOWN when terminated; then drops the
     * assumptions.  A second check requires incremental solving.
     */
    method CheckSat() returns (st: Status, r: Result)
      requires Valid()
      modifies this`assumptions, this`lastResult, this`checkedAssertions, this`checkedAssumptions
      ensures Valid()
      ensures st == if old(lastResult).Some? && !incremental then Failed(NotIncremental) else Ok
      ensures st.Failed? ==>
                && assumptions == old(assumptions) && lastResult == old(lastResult)
                && checkedAssertions == old(checkedAssertions) && checkedAssumptions == old(checkedAssumptions)
      ensures st.Ok? ==>
                && checkedAssertions == Assertions() && checkedAssumptions == old(assumptions)
                && r == (if Terminated() then Unknown else oracle.sat(Assertions(), old(assumptions)))
                && lastResult == Some(r) && assumptions == []
    {
      r := Unknown;
      if lastResult.Some? && !incremental {
        return Failed(NotIncremental), r;
      }
      var terminated := Terminate();
      if !terminated {
        r := oracle.sat(Assertions(), assumptions);
      }
      checkedAssertions, checkedAssumptions := Assertions(), assumptions;
      assumptions := [];
      lastResult := Some(r);
      st := Ok;
    }

    // -------------------------------------------------------------------
    // Queries on the last check

    /** bitwuzla_get_value: the model value of t; requires the last check to be SAT. */
    method GetValue(t: Ref) returns (v: Answer<Ref>)
      ensures lastResult == Some(Sat) ==> v == Answer(oracle.value(checkedAssertions, checkedAssumptions, t))
      ensures lastResult != Some(Sat) ==> v == Refused(LastResultNotSat)
    {
      if lastResult != Some(Sat) {
        return Refused(LastResultNotSat);
      }
      v := Answer(oracle.value(checkedAssertions, checkedAssumptions, t));
    }

    /** The assumptions of the last check that forced it to be unsatisfiable. */
    function UnsatAssumptions(): (fs: seq<Ref>)
      reads this`checkedAssertions, this`checkedAssumptions
      ensures forall f :: f in fs <==> f in checkedAssumptions && oracle.failed(checkedAssertions, checkedAssumptions, f)
    {
      var asserted, assumed := checkedAssertions, checkedAssumptions;
      Select(assumed, f => oracle.failed(asserted, assumed, f))
    }

    /** bitwuzla_get_unsat_core: the assertions of the last check in its unsat core; requires UNSAT. */
    method GetUnsatCore() returns (core: Answer<seq<Ref>>)
      ensures lastResult != Some(Unsat) <==> core == Refused(LastResultNotUnsat)
      ensures core.Answer? ==>
                forall f :: f in core.value <==>
                  f in checkedAssertions && oracle.inCore(checkedAssertions, checkedAssumptions, f)
    {
      if lastResult != Some(Unsat) {
        return Refused(LastResultNotUnsat);
      }
      var asserted, assumed := checkedAssertions, checkedAssumptions;
      core := Answer(Select(asserted, f => oracle.inCore(asserted, assumed, f)));
    }

    /** bitwuzla_get_unsat_assumptions: requires incremental solving and an UNSAT last check. */
    method GetUnsatAssumptions() returns (fs: Answer<seq<Ref>>)
      ensures !incremental ==> fs == Refused(NotIncremental)
      ensures incremental && lastResult != Some(Unsat) ==> fs == Refused(LastResultNotUnsat)
      ensures incremental && lastResult == Some(Unsat) ==>
                fs.Answer? && forall f :: f in fs.value <==>
                  f in checkedAssumptions && oracle.failed(checkedAssertions, checkedAssumptions, f)
    {
      if !incremental {
        return Refused(NotIncremental);
      }
      if lastResult != Some(Unsat) {
        return Refused(LastResultNotUnsat);
      }
      fs := Answer(UnsatAssumptions());
    }

    /**
     * bitwuzla_is_unsat_assumption: t is among the unsat assumptions;
     * requires incremental solving and an UNSAT last check.
     */
    method IsUnsatAssumption(t: Ref) returns (b: Answer<bool>)
      ensures !incremental ==> b == Refused(NotIncremental)
      ensures incremental && lastResult != Some(Unsat) ==> b == Refused(LastResultNotUnsat)
      ensures incremental && lastResult == Some(Unsat) ==> b == Answer(t in UnsatAssumptions())
      ensures b.Answer? && b.value ==> t in checkedAssumptions
    {
      if !incremental {
        return Refused(NotIncremental);
      }
      if lastResult != Some(Unsat) {
        return Refused(LastResultNotUnsat);
      }
      b := Answer(t in checkedAssumptions && oracle.failed(checkedAssertions, checkedAssumptions, t));
    }
  }

  // ---------------------------------------------------------------------
  // Sessions on a fresh instance

  /**
   * Asserting a, pushing a level, asserting b and popping it leaves exactly
   * a asserted; level 0 cannot be popped, and without incremental solving
   * neither push nor pop is allowed.
   */
  method PushPopSession(oracle: Oracle, a: Ref, b: Ref)
    returns (visible: seq<Ref>, second: Status, plain: Status)
    ensures visible == [a]
    ensures second == Failed(PopUnderflow)
    ensures plain == Failed(NotIncremental)
  {
    var other := new Bitwuzla(oracle);
    plain := other.Push(1);

    var bzla := new Bitwuzla(oracle);
    var st := bzla.SetOption(Incremental, 1);
    bzla.Assert(a);
    st := bzla.Push(1);
    bzla.Assert(b);
    st := bzla.Pop(1);
    visible := bzla.Assertions();
    second := bzla.Pop(1);
  }

  /**
   * An assumption made on a pushed level survives the pop, takes part in
   * the next check only, and is gone after it.
   */
  method AssumptionSession(oracle: Oracle, a: Ref, x: Ref)
    returns (checked: seq<Ref>, after: seq<Ref>, r: Result)
    requires oracle.sat([a], [x]) == Unsat
    ensures checked == [x] && after == []
    ensures r == Unsat
  {
    var bzla := new Bitwuzla(oracle);
    var st := bzla.SetOption(Incremental, 1);
    bzla.Assert(a);
    ghost var base := bzla.levels;
    st := bzla.Push(1);
    st := bzla.Assume(x);
    st := bzla.Pop(1);
    assert bzla.levels == base;
    assert bzla.Assertions() == [a] && bzla.assumptions == [x];
    assert !bzla.Terminated();
    st, r := bzla.CheckSat();
    checked, after := bzla.checkedAssumptions, bzla.assumptions;
  }

  /**
   * The rewrite level can be configured on a fresh instance, but not once
   * a term was asserted or assumed.
   */
  method RewriteLevelSession(oracle: Oracle, a: Ref, x: Ref)
    returns (before: Status, afterAssert: Status, afterAssume: Status)
    ensures before == Ok
    ensures afterAssert == Failed(RewriteLevelFrozen) && afterAssume == Failed(RewriteLevelFrozen)
  {
    var bzla := new Bitwuzla(oracle);
    before := bzla.SetOption(RewriteLevel, 1);
    bzla.Assert(a);
    afterAssert := bzla.SetOption(RewriteLevel, 0);

    var other := new Bitwuzla(oracle);
    var st := other.Assume(x);
    afterAssume := other.SetOption(RewriteLevel, 0);
  }

  /**
   * Without incremental solving only one check is allowed, and incremental
   * solving cannot be switched on after it; a terminated instance answers
   * UNKNOWN and keeps the state its callback was given.
   */
  method SingleCheckSession(oracle: Oracle, a: Ref, fun: nat -> int, state: nat)
    returns (first: Result, second: Status, toggle: Status, kept: Option<nat>)
    requires fun(state) > 0
    ensures first == Unknown
    ensures second == Failed(NotIncremental) && toggle == Failed(IncrementalFrozen)
    ensures kept == Some(state)
  {
    var bzla := new Bitwuzla(oracle);
    bzla.SetTerminationCallback(fun, state);
    bzla.Assert(a);
    var st;
    st, first := bzla.CheckSat();
    var r;
    second, r := bzla.CheckSat();
    toggle := bzla.SetOption(Incremental, 1);
    kept := bzla.GetTerminationCallbackState();
  }
}

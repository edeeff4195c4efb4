/** Debug expressions that call into the target: the expression is evaluated over and over from the start, with the
    results of earlier calls cached, until a round ends with no call pending. */
module CallReplay {

  datatype Value = NoValue | Bool(b: bool) | Int(n: int) | Ptr(p: int)

  datatype Expr =
    | Const(v: Value)
    | Read(addr: int)
    | Unary(op: int, e: Expr)
    | Binary(op: int, l: Expr, r: Expr)
    | Logical(isAnd: bool, l: Expr, r: Expr)
    | Coalesce(l: Expr, r: Expr)
    | Cond(c: Expr, t: Expr, f: Expr)
    | CallExpr(method_: int, args: seq<Expr>)

  /** A call of the target, with its argument values. */
  datatype Call = Call(method_: int, args: seq<Value>)

  /** A value and the number of errors reported on the way. */
  datatype Checked = Checked(value: Value, errors: nat)

  /** What an expression depends on: values the calls leave alone, operators and casts, what the target returns (which
      may depend on all calls before), and the placeholder for a call that has no result yet. */
  datatype Env = Env(
    mem: int -> Value,
    unary: (int, Value) -> Checked,
    binary: (int, Value, Value) -> Checked,
    toBool: Value -> Checked,
    castTo: (Value, Value) -> Checked,
    ret: (seq<Call>, Call) -> Value,
    placeholder: int -> Value)

  const NULL_COALESCE := 0

  // ----- direct evaluation: every call runs at once -----

  datatype Outcome = Outcome(value: Value, calls: seq<Call>, errors: nat)

  function Add(o: Outcome, c: Checked): Outcome {
    Outcome(c.value, o.calls, o.errors + c.errors)
  }

  function Direct(env: Env, e: Expr, calls: seq<Call>, errors: nat): (o: Outcome)
    ensures calls <= o.calls
    decreases e, 0
  {
    match e
    case Const(v) => Outcome(v, calls, errors)
    case Read(addr) => Outcome(env.mem(addr), calls, errors)
    case Unary(op, x) =>
      var o := Direct(env, x, calls, errors);
      if o.value == NoValue then o else Add(o, env.unary(op, o.value))
    case Binary(op, l, r) =>
      var o := Direct(env, l, calls, errors);
      var q := Direct(env, r, o.calls, o.errors);
      if o.value == NoValue || q.value == NoValue then q else Add(q, env.binary(op, o.value, q.value))
    case Logical(isAnd, l, r) =>
      var o := Direct(env, l, calls, errors);
      if o.value == NoValue then Direct(env, r, o.calls, o.errors)
      else if !o.value.Bool? then Outcome(NoValue, o.calls, o.errors + 1)
      else if o.value.b != isAnd then o
      else
        var q := Direct(env, r, o.calls, o.errors);
        if q.value == NoValue then q else Add(q, env.toBool(q.value))
    case Coalesce(l, r) =>
      var o := Direct(env, l, calls, errors);
      if o.value == NoValue then Direct(env, r, o.calls, o.errors)
      else if o.value.Ptr? && o.value.p != 0 then o
      else
        var q := Direct(env, r, o.calls, o.errors);
        // After a null pointer the right value is cast to the pointer's type and dropped.
        if o.value.Ptr? then
          if q.value == NoValue then q else Add(q, env.castTo(o.value, q.value)).(value := NoValue)
        else if q.value == NoValue then q
        else Add(q, env.binary(NULL_COALESCE, o.value, q.value))
    case Cond(c, t, f) =>
      var o := Direct(env, c, calls, errors);
      if o.value == NoValue then o
      else
        var b := env.toBool(o.value);
        if b.value == NoValue then o.(errors := o.errors + b.errors)
        else if b.value == Bool(true) then Direct(env, t, o.calls, o.errors + b.errors)
        else Direct(env, f, o.calls, o.errors + b.errors)
    case CallExpr(method_, args) =>
      var (vals, o) := DirectArgs(env, args, calls, errors);
      if NoValue in vals then o
      else
        var c := Call(method_, vals);
        Outcome(env.ret(o.calls, c), o.calls + [c], o.errors)
  }

  function DirectArgs(env: Env, es: seq<Expr>, calls: seq<Call>, errors: nat): (r: (seq<Value>, Outcome))
    ensures calls <= r.1.calls && r.1.value == NoValue
    decreases es, 1
  {
    if es == [] then ([], Outcome(NoValue, calls, errors))
    else
      var o := Direct(env, es[0], calls, errors);
      var (vals, q) := DirectArgs(env, es[1..], o.calls, o.errors);
      ([o.value] + vals, q)
  }

  /** With a pointer on the left, null coalescing yields that pointer or no value: what it should be, the left side
      or else the right, exactly when the pointer is not null or the right side has no value either. */
  lemma NullCoalesceLoses(env: Env, l: Expr, r: Expr, calls: seq<Call>, errors: nat)
    ensures var o, d := Direct(env, l, calls, errors), Direct(env, Coalesce(l, r), calls, errors);
            var q := Direct(env, r, o.calls, o.errors);
            o.value.Ptr? ==>
              && d.value == (if o.value.p != 0 then o.value else NoValue)
              && (d.value == (if o.value.p != 0 then o.value else q.value) <==> o.value.p != 0 || q.value == NoValue)
  {
  }

  /** With anything else on the left: without a value the right side alone counts, and otherwise both sides are evaluated
      and left to the operator. */
  lemma NullCoalesceOfOthers(env: Env, l: Expr, r: Expr, calls: seq<Call>, errors: nat)
    ensures var o, d := Direct(env, l, calls, errors), Direct(env, Coalesce(l, r), calls, errors);
            var q := Direct(env, r, o.calls, o.errors);
            !o.value.Ptr? ==>
              d == if o.value == NoValue || q.value == NoValue then q
                   else Add(q, env.binary(NULL_COALESCE, o.value, q.value))
  {
    var o, d := Direct(env, l, calls, errors), Direct(env, Coalesce(l, r), calls, errors);
    var q := Direct(env, r, o.calls, o.errors);
    if o.value == NoValue {
      assert d == q;
    } else if !o.value.Ptr? && q.value == NoValue {
      assert d == q;
    }
  }

  /** So a null pointer ?? 7 is no value, although 7 is one. */
  lemma NullCoalesceOfSeven(env: Env)
    ensures Direct(env, Coalesce(Const(Ptr(0)), Const(Int(7))), [], 0).value == NoValue
    ensures Direct(env, Const(Int(7)), [], 0).value == Int(7)
  {
  }

  // ----- what direct evaluation means, form by form -----

  /** A condition with outcome `o` leads to `r` by way of the side it chooses, and of no other: the true side for a
      condition that casts to true, the false side for one that casts to any other value. */
  ghost predicate Chosen(env: Env, c: Expr, t: Expr, f: Expr, calls: seq<Call>, errors: nat, r: Outcome) {
    var o := Direct(env, c, calls, errors);
    var b := env.toBool(o.value);
    && (o.value == NoValue ==> r == o)
    && (o.value != NoValue && b.value == NoValue ==> r == Outcome(o.value, o.calls, o.errors + b.errors))
    && (o.value != NoValue && b.value == Bool(true) ==> r == Direct(env, t, o.calls, o.errors + b.errors))
    && (o.value != NoValue && b.value != NoValue && b.value != Bool(true) ==>
          r == Direct(env, f, o.calls, o.errors + b.errors))
  }

  lemma CondChooses(env: Env, c: Expr, t: Expr, f: Expr, calls: seq<Call>, errors: nat)
    ensures Chosen(env, c, t, f, calls, errors, Direct(env, Cond(c, t, f), calls, errors))
  {
  }

  lemma CallOfNone(env: Env, m: int, calls: seq<Call>, errors: nat)
    ensures var c := Call(m, []);
            Direct(env, CallExpr(m, []), calls, errors) == Outcome(env.ret(calls, c), calls + [c], errors)
  {
    assert DirectArgs(env, [], calls, errors) == ([], Outcome(NoValue, calls, errors));
  }

  /** With two calls to choose from, only the chosen one is made, and what it returns is the value. */
  lemma CondMakesOneCall(env: Env, b: bool, f: int, g: int)
    requires env.toBool(Bool(b)) == Checked(Bool(b), 0)
    ensures var c := Call(if b then f else g, []);
            Direct(env, Cond(Const(Bool(b)), CallExpr(f, []), CallExpr(g, [])), [], 0) == Outcome(env.ret([], c), [c], 0)
  {
    CallOfNone(env, if b then f else g, [], 0);
    CondChooses(env, Const(Bool(b)), CallExpr(f, []), CallExpr(g, []), [], 0);
    assert [] + [Call(if b then f else g, [])] == [Call(if b then f else g, [])];
  }

  /** On a boolean left side, l && r evaluates what `l ? r : false` does and l || r what `l ? true : r` does: the same
      calls and errors and the same value, but for the cast of r to a boolean. */
  lemma LogicalIsCond(env: Env, isAnd: bool, l: Expr, r: Expr, calls: seq<Call>, errors: nat)
    requires forall b :: env.toBool(Bool(b)) == Checked(Bool(b), 0)
    ensures var o := Direct(env, l, calls, errors);
            var c := if isAnd then Cond(l, r, Const(Bool(false))) else Cond(l, Const(Bool(true)), r);
            var k, d := Direct(env, c, calls, errors), Direct(env, Logical(isAnd, l, r), calls, errors);
            o.value.Bool? ==> d == if o.value.b != isAnd || k.value == NoValue then k else Add(k, env.toBool(k.value))
  {
  }

  /** && and || of two booleans are what their names say. */
  lemma LogicalOfTwo(env: Env, l: bool, r: bool)
    requires env.toBool(Bool(r)) == Checked(Bool(r), 0)
    ensures Direct(env, Logical(true, Const(Bool(l)), Const(Bool(r))), [], 0) == Outcome(Bool(l && r), [], 0)
    ensures Direct(env, Logical(false, Const(Bool(l)), Const(Bool(r))), [], 0) == Outcome(Bool(l || r), [], 0)
  {
    ConstMakesNoCall(env, Bool(l), [], 0);
    ConstMakesNoCall(env, Bool(r), [], 0);
    LogicalForm(env, true, Const(Bool(l)), Const(Bool(r)), [], 0);
    LogicalForm(env, false, Const(Bool(l)), Const(Bool(r)), [], 0);
  }

  lemma ConstMakesNoCall(env: Env, v: Value, calls: seq<Call>, errors: nat)
    ensures Direct(env, Const(v), calls, errors) == Outcome(v, calls, errors)
  {
  }

  lemma LogicalForm(env: Env, isAnd: bool, l: Expr, r: Expr, calls: seq<Call>, errors: nat)
    ensures var o := Direct(env, l, calls, errors);
            var q := Direct(env, r, o.calls, o.errors);
            o.value.Bool? ==>
              Direct(env, Logical(isAnd, l, r), calls, errors)
              == if o.value.b != isAnd then o else if q.value == NoValue then q else Add(q, env.toBool(q.value))
  {
  }

  /** Every argument is evaluated behind the ones before it: argument k has the value of its expression after the calls
      that evaluating the first k arguments makes. */
  lemma {:induction false} ArgsInOrder(env: Env, es: seq<Expr>, calls: seq<Call>, errors: nat, k: nat)
    requires k < |es|
    ensures var (vals, _) := DirectArgs(env, es, calls, errors);
            var (before, h) := DirectArgs(env, es[..k], calls, errors);
            && |vals| == |es| && |before| == k && vals[..k] == before
            && vals[k] == Direct(env, es[k], h.calls, h.errors).value
  {
    var o := Direct(env, es[0], calls, errors);
    ArgsLength(env, es[1..], o.calls, o.errors);
    if k > 0 {
      ArgsInOrder(env, es[1..], o.calls, o.errors, k - 1);
      assert es[..k][0] == es[0] && es[..k][1..] == es[1..][..k - 1];
      var (vals, _) := DirectArgs(env, es, calls, errors);
      var (rest, _) := DirectArgs(env, es[1..], o.calls, o.errors);
      assert vals == [o.value] + rest && vals[..k] == [o.value] + rest[..k - 1];
    }
  }

  lemma {:induction false} ArgsLength(env: Env, es: seq<Expr>, calls: seq<Call>, errors: nat)
    ensures |DirectArgs(env, es, calls, errors).0| == |es|
  {
    if es != [] {
      var o := Direct(env, es[0], calls, errors);
      ArgsLength(env, es[1..], o.calls, o.errors);
    }
  }

  /** A call of two arguments: the calls of the first, those of the second, and then the call itself with both values. */
  lemma CallOfTwo(env: Env, m: int, a: Expr, b: Expr, calls: seq<Call>, errors: nat)
    ensures var o := Direct(env, a, calls, errors);
            var q := Direct(env, b, o.calls, o.errors);
            var c := Call(m, [o.value, q.value]);
            o.value != NoValue && q.value != NoValue ==>
              Direct(env, CallExpr(m, [a, b]), calls, errors) == Outcome(env.ret(q.calls, c), q.calls + [c], q.errors)
  {
    var o := Direct(env, a, calls, errors);
    var q := Direct(env, b, o.calls, o.errors);
    ArgsFirst(env, b, [], o.calls, o.errors);
    ArgsFirst(env, a, [b], calls, errors);
    assert [a] + [b] == [a, b] && [b] + [] == [b];
    assert [q.value] + [] == [q.value] && [o.value] + [q.value] == [o.value, q.value];
  }

  lemma ArgsFirst(env: Env, e: Expr, es: seq<Expr>, calls: seq<Call>, errors: nat)
    ensures var o := Direct(env, e, calls, errors);
            var (vals, q) := DirectArgs(env, es, o.calls, o.errors);
            DirectArgs(env, [e] + es, calls, errors) == ([o.value] + vals, q)
    ensures DirectArgs(env, [], calls, errors) == ([], Outcome(NoValue, calls, errors))
  {
    assert ([e] + es)[0] == e && ([e] + es)[1..] == es;
  }

  /** An operator on the results of two calls: the left call is made first, and the operator gets its result first. */
  lemma BinaryOfTwoCalls(env: Env, op: int, f: int, g: int)
    ensures var c, d := Call(f, []), Call(g, []);
            var x, y := env.ret([], c), env.ret([c], d);
            x != NoValue && y != NoValue ==>
              var r := env.binary(op, x, y);
              Direct(env, Binary(op, CallExpr(f, []), CallExpr(g, [])), [], 0) == Outcome(r.value, [c, d], r.errors)
  {
    var c, d := Call(f, []), Call(g, []);
    CallOfNone(env, f, [], 0);
    CallOfNone(env, g, [c], 0);
    assert [] + [c] == [c] && [c] + [d] == [c, d];
    BinaryEvaluatesBoth(env, op, CallExpr(f, []), CallExpr(g, []), [], 0);
  }

  /** An operand that has no value leaves a binary operator without one, but not without the calls of the other. */
  lemma BinaryEvaluatesBoth(env: Env, op: int, l: Expr, r: Expr, calls: seq<Call>, errors: nat)
    ensures var o := Direct(env, l, calls, errors);
            var q := Direct(env, r, o.calls, o.errors);
            var d := Direct(env, Binary(op, l, r), calls, errors);
            && d.calls == q.calls
            && (o.value == NoValue || q.value == NoValue ==> d == q)
            && (o.value != NoValue && q.value != NoValue ==> d == Add(q, env.binary(op, o.value, q.value)))
  {
  }

  /** The operand of a unary operator, evaluated first; a value read or written out makes no call. */
  lemma SimpleForms(env: Env, op: int, x: Expr, v: Value, addr: int, calls: seq<Call>, errors: nat)
    ensures Direct(env, Const(v), calls, errors) == Outcome(v, calls, errors)
    ensures Direct(env, Read(addr), calls, errors) == Outcome(env.mem(addr), calls, errors)
    ensures var o := Direct(env, x, calls, errors);
            Direct(env, Unary(op, x), calls, errors) == if o.value == NoValue then o else Add(o, env.unary(op, o.value))
  {
  }

  // ----- one round -----

  datatype CallResult = CallResult(mMethod: int, mResult: Value)

  /** Round state as a value: `base` is what had been started before the round. */
  datatype State = State(results: seq<CallResult>, started: seq<Call>, idx: int, pending: bool, blocked: bool,
                         errors: nat, reg: Value)

  /** Results 0..n-1 hold what the target returned, except that the last may still be in the return register. */
  ghost predicate Cached(env: Env, s: State, base: seq<Call>) {
    && |base| <= |s.results|
    && (forall i | 0 <= i < |base| && (i < |base| - 1 || i < s.idx) :: s.results[i].mResult == env.ret(base[..i], base[i]))
  }

  /** The round so far matches direct evaluation that has made `calls`: either it replayed all of them from results,
      or it started the first one without a result and nothing after it. */
  ghost predicate Follows(env: Env, base: seq<Call>, s: State, calls: seq<Call>, errors: nat) {
    if |calls| <= |base| then
      && !s.pending && !s.blocked && s.idx == |calls| && calls == base[..|calls|] && s.started == base
      && |s.results| == |base| && Cached(env, s, base) && s.errors == errors
      && (base != [] ==> s.reg == env.ret(base[..|base| - 1], base[|base| - 1]))
    else
      && s.pending && base == calls[..|base|] && s.started == calls[..|base| + 1]
      && |s.results| == |base| + 1 && s.idx > |base| && Cached(env, s, base)
  }

  /** `base` and the calls of a direct evaluation do not contradict each other. */
  ghost predicate Compatible(base: seq<Call>, calls: seq<Call>) {
    if |calls| <= |base| then calls == base[..|calls|] else base == calls[..|base|]
  }

  /** Once a call is pending, anything that starts nothing keeps the round matching every continuation. */
  lemma FollowsQuiet(env: Env, base: seq<Call>, s: State, s': State, h: seq<Call>, g: seq<Call>, e: nat, e': nat)
    requires Follows(env, base, s, h, e) && s.pending && h <= g
    requires Quiet(s, s')
    ensures Follows(env, base, s', g, e')
  {
    assert g[..|base|] == h[..|base|] && g[..|base| + 1] == h[..|base| + 1];
  }

  /** Nothing was started, and the pending call stays pending. */
  ghost predicate Quiet(s: State, s': State) {
    s'.results == s.results && s'.started == s.started && s'.pending && s.idx <= s'.idx
  }

  lemma CompatiblePrefix(base: seq<Call>, h: seq<Call>, g: seq<Call>)
    requires Compatible(base, g) && h <= g
    ensures Compatible(base, h)
  {
    if |h| <= |base| {
      assert h == g[..|h|];
    } else {
      assert h[..|base|] == g[..|base|];
    }
  }

  // ----- what evaluating a part of the expression needs and achieves -----

  /** The round has followed `calls`, and the outcome agrees with what earlier rounds started. */
  ghost predicate Ready(allow: bool, env: Env, base: seq<Call>, s: State, calls: seq<Call>, errors: nat, o: Outcome) {
    allow && !s.pending ==> Follows(env, base, s, calls, errors) && Compatible(base, o.calls)
  }

  /** From s to s' a part with direct outcome `o` was evaluated to v. */
  ghost predicate Done(allow: bool, env: Env, base: seq<Call>, s: State, s': State, v: Value, o: Outcome) {
    if !allow then s'.started == s.started && s'.results == s.results && s'.pending == s.pending
    else if s.pending then Quiet(s, s')
    else Follows(env, base, s', o.calls, o.errors) && (!s'.pending ==> v == o.value)
  }

  lemma ReadyFirst(allow: bool, env: Env, base: seq<Call>, s: State, calls: seq<Call>, errors: nat, o: Outcome, q: Outcome)
    requires Ready(allow, env, base, s, calls, errors, q) && o.calls <= q.calls
    ensures Ready(allow, env, base, s, calls, errors, o)
  {
    if allow && !s.pending {
      CompatiblePrefix(base, o.calls, q.calls);
    }
  }

  /** After a first part, a second one of direct evaluation is ready too; after a pending call, any part is. */
  lemma ReadyNext(allow: bool, env: Env, base: seq<Call>, s: State, calls: seq<Call>, errors: nat,
                  s': State, v: Value, o: Outcome, q: Outcome, d: Outcome)
    requires Ready(allow, env, base, s, calls, errors, d) && Done(allow, env, base, s, s', v, o)
    requires allow && !s'.pending ==> q.calls <= d.calls
    ensures Ready(allow, env, base, s', o.calls, o.errors, q)
  {
    if allow && !s'.pending {
      CompatiblePrefix(base, q.calls, d.calls);
    }
  }

  /** What comes after a first part: nothing new once a call is pending, and the rest of direct evaluation otherwise. */
  lemma DoneRest(allow: bool, env: Env, base: seq<Call>, s: State, s': State, s'': State, v: Value, o: Outcome,
                 w: Value, d: Outcome)
    requires Done(allow, env, base, s, s', v, o) && o.calls <= d.calls
    requires !allow ==> s''.started == s'.started && s''.results == s'.results && s''.pending == s'.pending
    requires allow && s'.pending ==> Quiet(s', s'')
    requires allow && !s'.pending ==> Follows(env, base, s'', d.calls, d.errors) && (!s''.pending ==> w == d.value)
    ensures Done(allow, env, base, s, s'', w, d)
  {
    if allow && !s.pending && s'.pending {
      FollowsQuiet(env, base, s', s'', o.calls, d.calls, o.errors, d.errors);
    }
  }

  class Evaluation {
    const mEnv: Env
    const mAllowCalls: bool
    // kept between rounds
    var mCallResults: seq<CallResult>
    var mStarted: seq<Call>
    var mReturnReg: Value
    // of one round
    var mCallResultIdx: int
    var mCreatedPendingCall: bool
    var mBlockedSideEffects: bool
    var mErrors: nat

    constructor (env: Env, allowCalls: bool)
      ensures mEnv == env && mAllowCalls == allowCalls && mCallResults == [] && mStarted == []
    {
      mEnv, mAllowCalls := env, allowCalls;
      mCallResults, mStarted, mReturnReg := [], [], NoValue;
      mCallResultIdx, mCreatedPendingCall, mBlockedSideEffects, mErrors := 0, false, false, 0;
    }

    ghost function Snap(): State
      reads this
    {
      State(mCallResults, mStarted, mCallResultIdx, mCreatedPendingCall, mBlockedSideEffects, mErrors, mReturnReg)
    }

    /** One dynamic call of the round. */
    method CreateCall(c: Call, ghost base: seq<Call>, ghost calls: seq<Call>, ghost errors: nat) returns (v: Value)
      requires Ready(mAllowCalls, mEnv, base, Snap(), calls, errors, Outcome(NoValue, calls + [c], errors))
      modifies this
      ensures Done(mAllowCalls, mEnv, base, old(Snap()), Snap(), v, Outcome(mEnv.ret(calls, c), calls + [c], errors))
      ensures !mAllowCalls || old(mCreatedPendingCall) ==> mBlockedSideEffects
    {
      var curCallResultIdx := mCallResultIdx;
      mCallResultIdx := mCallResultIdx + 1;
      if !mAllowCalls || mCreatedPendingCall {
        mBlockedSideEffects := true;
        v := mEnv.placeholder(c.method_);
        return;
      }
      assert calls == (calls + [c])[..|calls|];
      if curCallResultIdx < |mCallResults| - 1 {
        v := mCallResults[curCallResultIdx].mResult;
      } else if curCallResultIdx == |mCallResults| - 1 {
        v := mReturnReg;
        mCallResults := mCallResults[curCallResultIdx := mCallResults[curCallResultIdx].(mResult := v)];
      } else {
        mStarted := mStarted + [c];
        mCallResults := mCallResults + [CallResult(c.method_, NoValue)];
        mCreatedPendingCall := true;
        v := mEnv.placeholder(c.method_);
      }
    }

    /** Evaluates a part of the expression, from the history `calls` of direct evaluation. */
    method Evaluate(e: Expr, ghost base: seq<Call>, ghost calls: seq<Call>, ghost errors: nat) returns (v: Value)
      requires Ready(mAllowCalls, mEnv, base, Snap(), calls, errors, Direct(mEnv, e, calls, errors))
      modifies this
      ensures Done(mAllowCalls, mEnv, base, old(Snap()), Snap(), v, Direct(mEnv, e, calls, errors))
      decreases e, 1
    {
      match e {
        case Const(c) => v := c;
        case Read(addr) => v := mEnv.mem(addr);
        case Unary(_, _) => v := EvaluateUnary(e, base, calls, errors);
        case Binary(_, _, _) => v := EvaluateBinary(e, base, calls, errors);
        case Logical(_, _, _) => v := EvaluateLogical(e, base, calls, errors);
        case Coalesce(_, _) => v := EvaluateCoalesce(e, base, calls, errors);
        case Cond(_, _, _) => v := EvaluateCond(e, base, calls, errors);
        case CallExpr(_, _) => v := EvaluateCall(e, base, calls, errors);
      }
    }

    method EvaluateUnary(e: Expr, ghost base: seq<Call>, ghost calls: seq<Call>, ghost errors: nat) returns (v: Value)
      requires e.Unary?
      requires Ready(mAllowCalls, mEnv, base, Snap(), calls, errors, Direct(mEnv, e, calls, errors))
      modifies this
      ensures Done(mAllowCalls, mEnv, base, old(Snap()), Snap(), v, Direct(mEnv, e, calls, errors))
      decreases e, 0
    {
      v := Evaluate(e.e, base, calls, errors);
      if v != NoValue {
        var c := mEnv.unary(e.op, v);
        mErrors := mErrors + c.errors;
        v := c.value;
      }
    }

    method EvaluateBinary(e: Expr, ghost base: seq<Call>, ghost calls: seq<Call>, ghost errors: nat) returns (v: Value)
      requires e.Binary?
      requires Ready(mAllowCalls, mEnv, base, Snap(), calls, errors, Direct(mEnv, e, calls, errors))
      modifies this
      ensures Done(mAllowCalls, mEnv, base, old(Snap()), Snap(), v, Direct(mEnv, e, calls, errors))
      decreases e, 0
    {
      ghost var s, d := Snap(), Direct(mEnv, e, calls, errors);
      ghost var o := Direct(mEnv, e.l, calls, errors);
      ghost var q := Direct(mEnv, e.r, o.calls, o.errors);
      ReadyFirst(mAllowCalls, mEnv, base, s, calls, errors, o, d);
      var left := Evaluate(e.l, base, calls, errors);
      ghost var s' := Snap();
      ReadyNext(mAllowCalls, mEnv, base, s, calls, errors, s', left, o, q, d);
      v := Evaluate(e.r, base, o.calls, o.errors);
      if left != NoValue && v != NoValue {
        var c := mEnv.binary(e.op, left, v);
        mErrors := mErrors + c.errors;
        v := c.value;
      }
      DoneRest(mAllowCalls, mEnv, base, s, s', Snap(), left, o, v, d);
    }

    /** && and ||: the right side is evaluated only when the left one does not decide. */
    method EvaluateLogical(e: Expr, ghost base: seq<Call>, ghost calls: seq<Call>, ghost errors: nat) returns (v: Value)
      requires e.Logical?
      requires Ready(mAllowCalls, mEnv, base, Snap(), calls, errors, Direct(mEnv, e, calls, errors))
      modifies this
      ensures Done(mAllowCalls, mEnv, base, old(Snap()), Snap(), v, Direct(mEnv, e, calls, errors))
      decreases e, 0
    {
      ghost var s, d := Snap(), Direct(mEnv, e, calls, errors);
      ghost var o := Direct(mEnv, e.l, calls, errors);
      ghost var q := Direct(mEnv, e.r, o.calls, o.errors);
      ReadyFirst(mAllowCalls, mEnv, base, s, calls, errors, o, d);
      var left := Evaluate(e.l, base, calls, errors);
      ghost var s' := Snap();
      v := left;
      if left == NoValue || (left.Bool? && left.b == e.isAnd) {
        ReadyNext(mAllowCalls, mEnv, base, s, calls, errors, s', left, o, q, d);
        v := Evaluate(e.r, base, o.calls, o.errors);
        if left != NoValue && v != NoValue {
          var c := mEnv.toBool(v);
          mErrors := mErrors + c.errors;
          v := c.value;
        }
      } else if !left.Bool? {
        mErrors := mErrors + 1;
        v := NoValue;
      }
      DoneRest(mAllowCalls, mEnv, base, s, s', Snap(), left, o, v, d);
    }

    method EvaluateCoalesce(e: Expr, ghost base: seq<Call>, ghost calls: seq<Call>, ghost errors: nat) returns (v: Value)
      requires e.Coalesce?
      requires Ready(mAllowCalls, mEnv, base, Snap(), calls, errors, Direct(mEnv, e, calls, errors))
      modifies this
      ensures Done(mAllowCalls, mEnv, base, old(Snap()), Snap(), v, Direct(mEnv, e, calls, errors))
      decreases e, 0
    {
      ghost var s, d := Snap(), Direct(mEnv, e, calls, errors);
      ghost var o := Direct(mEnv, e.l, calls, errors);
      ghost var q := Direct(mEnv, e.r, o.calls, o.errors);
      ReadyFirst(mAllowCalls, mEnv, base, s, calls, errors, o, d);
      var left := Evaluate(e.l, base, calls, errors);
      ghost var s' := Snap();
      v := left;
      if !(left.Ptr? && left.p != 0) {
        ReadyNext(mAllowCalls, mEnv, base, s, calls, errors, s', left, o, q, d);
        v := Evaluate(e.r, base, o.calls, o.errors);
        if left.Ptr? {
          if v != NoValue { mErrors := mErrors + mEnv.castTo(left, v).errors; }
          v := NoValue;
        } else if left != NoValue && v != NoValue {
          var c := mEnv.binary(NULL_COALESCE, left, v);
          mErrors := mErrors + c.errors;
          v := c.value;
        }
      }
      DoneRest(mAllowCalls, mEnv, base, s, s', Snap(), left, o, v, d);
    }

    method EvaluateCond(e: Expr, ghost base: seq<Call>, ghost calls: seq<Call>, ghost errors: nat) returns (v: Value)
      requires e.Cond?
      requires Ready(mAllowCalls, mEnv, base, Snap(), calls, errors, Direct(mEnv, e, calls, errors))
      modifies this
      ensures Done(mAllowCalls, mEnv, base, old(Snap()), Snap(), v, Direct(mEnv, e, calls, errors))
      ensures Chosen(mEnv, e.c, e.t, e.f, calls, errors, Direct(mEnv, e, calls, errors))
      decreases e, 0
    {
      ghost var s, d := Snap(), Direct(mEnv, e, calls, errors);
      ghost var o := Direct(mEnv, e.c, calls, errors);
      ReadyFirst(mAllowCalls, mEnv, base, s, calls, errors, o, d);
      var condition := Evaluate(e.c, base, calls, errors);
      ghost var s' := Snap();
      if condition == NoValue {
        DoneRest(mAllowCalls, mEnv, base, s, s', Snap(), condition, o, condition, d);
        return condition;
      }
      var b := mEnv.toBool(condition);
      mErrors := mErrors + b.errors;
      if b.value == NoValue {
        DoneRest(mAllowCalls, mEnv, base, s, s', Snap(), condition, o, condition, d);
        return condition;
      }
      var branch := if b.value == Bool(true) then e.t else e.f;
      ghost var o' := o.(errors := o.errors + b.errors);
      ghost var q := Direct(mEnv, branch, o'.calls, o'.errors);
      ReadyNext(mAllowCalls, mEnv, base, s, calls, errors, s', condition, o, q, d);
      v := Evaluate(branch, base, o'.calls, o'.errors);
      DoneRest(mAllowCalls, mEnv, base, s, s', Snap(), condition, o, v, d);
    }

    method EvaluateArgs(es: seq<Expr>, ghost base: seq<Call>, ghost calls: seq<Call>, ghost errors: nat)
      returns (vals: seq<Value>)
      requires Ready(mAllowCalls, mEnv, base, Snap(), calls, errors, DirectArgs(mEnv, es, calls, errors).1)
      modifies this
      ensures var (direct, o) := DirectArgs(mEnv, es, calls, errors);
              && Done(mAllowCalls, mEnv, base, old(Snap()), Snap(), NoValue, o)
              && (mAllowCalls && !mCreatedPendingCall ==> vals == direct)
      decreases es, 2
    {
      if es == [] {
        vals := [];
      } else {
        ghost var s, d := Snap(), DirectArgs(mEnv, es, calls, errors).1;
        ghost var o := Direct(mEnv, es[0], calls, errors);
        ghost var q := DirectArgs(mEnv, es[1..], o.calls, o.errors).1;
        ReadyFirst(mAllowCalls, mEnv, base, s, calls, errors, o, d);
        var v := Evaluate(es[0], base, calls, errors);
        ghost var s' := Snap();
        ReadyNext(mAllowCalls, mEnv, base, s, calls, errors, s', v, o, q, d);
        vals := EvaluateArgs(es[1..], base, o.calls, o.errors);
        vals := [v] + vals;
        DoneRest(mAllowCalls, mEnv, base, s, s', Snap(), v, o, NoValue, d);
      }
    }

    method EvaluateCall(e: Expr, ghost base: seq<Call>, ghost calls: seq<Call>, ghost errors: nat) returns (v: Value)
      requires e.CallExpr?
      requires Ready(mAllowCalls, mEnv, base, Snap(), calls, errors, Direct(mEnv, e, calls, errors))
      modifies this
      ensures Done(mAllowCalls, mEnv, base, old(Snap()), Snap(), v, Direct(mEnv, e, calls, errors))
      decreases e, 0
    {
      ghost var s, d := Snap(), Direct(mEnv, e, calls, errors);
      ghost var (direct, o) := DirectArgs(mEnv, e.args, calls, errors);
      ReadyFirst(mAllowCalls, mEnv, base, s, calls, errors, o, d);
      var vals := EvaluateArgs(e.args, base, calls, errors);
      ghost var s' := Snap();
      v := NoValue;
      if NoValue !in vals {
        var c := Call(e.method_, vals);
        ghost var q := Outcome(NoValue, o.calls + [c], o.errors);
        ReadyNext(mAllowCalls, mEnv, base, s, calls, errors, s', NoValue, o, q, d);
        v := CreateCall(c, base, o.calls, o.errors);
      }
      DoneRest(mAllowCalls, mEnv, base, s, s', Snap(), NoValue, o, v, d);
    }

    // ----- rounds -----

    /** Between rounds: what has been started is how direct evaluation begins, earlier results are cached, and the last
        is in the return register. */
    ghost predicate BetweenRounds(e: Expr)
      reads this
    {
      var d := Direct(mEnv, e, [], 0);
      && mStarted <= d.calls && |mCallResults| == |mStarted|
      && (forall i | 0 <= i < |mStarted| - 1 :: mCallResults[i].mResult == mEnv.ret(mStarted[..i], mStarted[i]))
      && (mStarted != [] ==> mReturnReg == mEnv.ret(mStarted[..|mStarted| - 1], mStarted[|mStarted| - 1]))
    }

    /** One round: either it starts exactly the next call of direct evaluation, or it ends with the direct result. */
    method EvaluateContinue(e: Expr) returns (v: Value)
      requires mAllowCalls && BetweenRounds(e)
      modifies this
      ensures var d := Direct(mEnv, e, [], 0); var n := |old(mStarted)|;
              && mCreatedPendingCall == (n < |d.calls|)
              && mStarted == (if n < |d.calls| then d.calls[..n + 1] else d.calls)
              && |mCallResults| == |mStarted|
              && (forall i | 0 <= i < n :: mCallResults[i].mResult == mEnv.ret(mStarted[..i], mStarted[i]))
              && (!mCreatedPendingCall ==> v == d.value && mErrors == d.errors && !mBlockedSideEffects)
    {
      mCallResultIdx, mCreatedPendingCall, mBlockedSideEffects, mErrors := 0, false, false, 0;
      ghost var base, d := mStarted, Direct(mEnv, e, [], 0);
      assert base == d.calls[..|base|];
      v := Evaluate(e, base, [], 0);
      assert |d.calls| <= |base| ==> d.calls == base;
      assert base <= mStarted && mStarted <= d.calls;
      forall i | 0 <= i < |base| ensures mCallResults[i].mResult == mEnv.ret(mStarted[..i], mStarted[i]) {
        assert base[..i] == mStarted[..i];
      }
    }

    /** The target runs the pending call to its end, leaving the result in the return register. */
    method RunPendingCall()
      requires mStarted != []
      modifies this`mReturnReg
      ensures mReturnReg == mEnv.ret(mStarted[..|mStarted| - 1], mStarted[|mStarted| - 1])
    {
      mReturnReg := mEnv.ret(mStarted[..|mStarted| - 1], mStarted[|mStarted| - 1]);
    }

    /** All rounds of one expression: one more than direct evaluation makes calls, each of which is started exactly
        once, in order and with the direct arguments; the last round yields the direct value and errors. */
    method EvaluateAll(e: Expr) returns (v: Value, rounds: nat)
      requires mAllowCalls && mCallResults == [] && mStarted == []
      modifies this
      ensures var d := Direct(mEnv, e, [], 0);
              v == d.value && mErrors == d.errors && mStarted == d.calls && rounds == |d.calls| + 1
      ensures !mCreatedPendingCall && !mBlockedSideEffects
      ensures e.Cond? ==> Chosen(mEnv, e.c, e.t, e.f, [], 0, Outcome(v, mStarted, mErrors))
    {
      ghost var d := Direct(mEnv, e, [], 0);
      if e.Cond? { CondChooses(mEnv, e.c, e.t, e.f, [], 0); }
      v := EvaluateContinue(e);
      rounds := 1;
      while mCreatedPendingCall
        invariant |mStarted| == |mCallResults| && mStarted <= d.calls
        invariant rounds == |mStarted| + (if mCreatedPendingCall then 0 else 1)
        invariant mCreatedPendingCall ==> mStarted != []
        invariant forall i | 0 <= i < |mStarted| - 1 :: mCallResults[i].mResult == mEnv.ret(mStarted[..i], mStarted[i])
        invariant !mCreatedPendingCall ==>
                    mStarted == d.calls && v == d.value && mErrors == d.errors && !mBlockedSideEffects
        decreases |d.calls| - |mStarted|, mCreatedPendingCall
      {
        RunPendingCall();
        v := EvaluateContinue(e);
        rounds := rounds + 1;
      }
    }
  }
}

/**
  What eval_with_env computes.

  Evaluation dispatches on the expression in a fixed order: values of the
  null, number, string and double kinds evaluate to themselves, a symbol is
  looked up, then the special forms define, quote, set!, if, lambda and
  begin are recognised by their head symbol, any other cons is an
  application, and anything else is fatal. Every evaluation below the
  outermost one consumes one unit of `fuel`; running out is `OutOfFuel`,
  which stands for the evaluations the C program would carry on with.

  `falseObj` is the object g_false that decides truth.
*/
module Evaluation {
  import opened Wrappers
  import opened Errors
  import opened CString
  import opened Memory
  import opened Environment
  import opened Primitives

  const DefineTag: seq<byte> := [0x64, 0x65, 0x66, 0x69, 0x6E, 0x65] // "define"
  const QuoteTag: seq<byte> := [0x71, 0x75, 0x6F, 0x74, 0x65] // "quote"
  const SetTag: seq<byte> := [0x73, 0x65, 0x74, 0x21] // "set!"
  const IfTag: seq<byte> := [0x69, 0x66] // "if"
  const LambdaTag: seq<byte> := [0x6C, 0x61, 0x6D, 0x62, 0x64, 0x61] // "lambda"
  const BeginTag: seq<byte> := [0x62, 0x65, 0x67, 0x69, 0x6E] // "begin"

  /** The size of eval_application's operand buffer. */
  const MaxOperands: nat := 32

  /** The evaluated operands of an application, with the heap they leave. */
  datatype Operands = Operands(heap: Heap, values: seq<Value>)

  function Cadr(h: Heap, v: Value): Result<Value, Error> {
    var d :- Cdr(h, v);
    Car(h, d)
  }

  function Cddr(h: Heap, v: Value): Result<Value, Error> {
    var d :- Cdr(h, v);
    Cdr(h, d)
  }

  function Caddr(h: Heap, v: Value): Result<Value, Error> {
    var d :- Cddr(h, v);
    Car(h, d)
  }

  function Cadddr(h: Heap, v: Value): Result<Value, Error> {
    var d :- Cddr(h, v);
    var dd :- Cdr(h, d);
    Car(h, dd)
  }

  /**
    is_tagged_list: a cons whose car is a symbol of exactly the tag's
    length whose first that many bytes agree with the tag.
  */
  function IsTaggedList(h: Heap, exp: Value, tag: seq<byte>): (r: Result<bool, Error>)
    ensures !exp.Cons? ==> r == Ok(false)
    ensures NoNul(tag) ==>
      (r == Ok(true) <==> Readable(h, exp) && SymbolAt(h, h.conses[exp.index].car) == Ok(tag))
  {
    if !exp.Cons? then Ok(false)
    else
      var entry :- ConsAt(h, exp);
      if !entry.car.Symbol? then Ok(false)
      else
        var name :- SymbolAt(h, entry.car);
        StrnEqSameLength(tag, name);
        Ok(|tag| == |name| && StrnEq(tag, name, |tag|))
  }

  /** is_self_evaluating */
  predicate IsSelfEvaluating(v: Value) {
    v.Null? || v.Number? || v.Str? || v.Double?
  }

  /**
    is_equal: objects of different kinds are unequal, symbols are equal
    when they are the same object, and every other kind is unimplemented.
  */
  function IsEqual(a: Value, b: Value): Result<bool, Error> {
    if KindOf(a) != KindOf(b) then Ok(false)
    else if a.Symbol? then Ok(a == b)
    else Err(Fatal("not implemented"))
  }

  /** is_true: anything not equal to g_false. */
  function IsTrue(v: Value, falseObj: Value): (r: Result<bool, Error>)
    ensures KindOf(v) != KindOf(falseObj) ==> r == Ok(true)
    ensures v.Symbol? && falseObj.Symbol? ==> r == Ok(v != falseObj)
    ensures KindOf(v) == KindOf(falseObj) && !v.Symbol? ==> r == Err(Fatal("not implemented"))
  {
    var equal :- IsEqual(v, falseObj);
    Ok(!equal)
  }

  /** eval_with_env. */
  function Eval(h: Heap, falseObj: Value, obj: Value, env: Value, fuel: nat): Result<Outcome, Error>
    decreases fuel, 0, 0
  {
    if fuel == 0 then Err(OutOfFuel)
    else if IsSelfEvaluating(obj) then Ok(Outcome(h, obj))
    else if obj.Symbol? then EvalVariable(h, obj, env)
    else EvalForm(h, falseObj, obj, env, fuel - 1)
  }

  /** A variable evaluates to the value it is bound to; an unbound one is fatal. */
  function EvalVariable(h: Heap, obj: Value, env: Value): Result<Outcome, Error> {
    var found :- LookupVariableValue(h, obj, env);
    if found.None? then Err(Fatal("Unbound variable")) else Ok(Outcome(h, found.value))
  }

  /**
    The special forms in the order eval_with_env tries them, then
    application; `fuel` is what the nested evaluations may use.
  */
  function EvalForm(h: Heap, falseObj: Value, obj: Value, env: Value, fuel: nat): Result<Outcome, Error>
    decreases fuel, 5, 0
  {
    var isDefinition :- IsTaggedList(h, obj, DefineTag);
    if isDefinition then EvalDefinition(h, falseObj, obj, env, fuel)
    else
    var isQuoted :- IsTaggedList(h, obj, QuoteTag);
    if isQuoted then
      var text :- Cadr(h, obj);
      Ok(Outcome(h, text))
    else
    var isAssignment :- IsTaggedList(h, obj, SetTag);
    if isAssignment then EvalAssignment(h, falseObj, obj, env, fuel)
    else
    EvalFormFromIf(h, falseObj, obj, env, fuel)
  }

  /** The rest of the dispatch, from the if test on. */
  function EvalFormFromIf(h: Heap, falseObj: Value, obj: Value, env: Value, fuel: nat): Result<Outcome, Error>
    decreases fuel, 4, 0
  {
    var isIf :- IsTaggedList(h, obj, IfTag);
    if isIf then EvalIf(h, falseObj, obj, env, fuel)
    else
    var isLambda :- IsTaggedList(h, obj, LambdaTag);
    if isLambda then
      var parameters :- Cadr(h, obj);
      var body :- Cddr(h, obj);
      Ok(NewLambda(h, LambdaEntry(parameters, body)))
    else
    var isBegin :- IsTaggedList(h, obj, BeginTag);
    if isBegin then
      var actions :- Cdr(h, obj);
      EvalSequence(h, falseObj, actions, env, fuel)
    else if obj.Cons? then EvalApplication(h, falseObj, obj, env, fuel)
    else Err(Fatal("Unable to evaluate expression"))
  }

  /** (define variable value): the value is evaluated, then bound in the first frame. */
  function EvalDefinition(h: Heap, falseObj: Value, obj: Value, env: Value, fuel: nat): Result<Outcome, Error>
    decreases fuel, 3, 0
  {
    var variable :- Cadr(h, obj);
    var valueExp :- Caddr(h, obj);
    var value :- Eval(h, falseObj, valueExp, env, fuel);
    DefineVariable(value.heap, variable, value.value, env)
  }

  /** (set! variable value): the value is evaluated, then stored in the nearest binding. */
  function EvalAssignment(h: Heap, falseObj: Value, obj: Value, env: Value, fuel: nat): Result<Outcome, Error>
    decreases fuel, 3, 0
  {
    var variable :- Cadr(h, obj);
    var valueExp :- Caddr(h, obj);
    var value :- Eval(h, falseObj, valueExp, env, fuel);
    SetVariableValue(value.heap, variable, value.value, env)
  }

  /**
    (if test consequent alternative): the branch is chosen by is_true of
    the test's value and read from the expression after the test ran.
  */
  function EvalIf(h: Heap, falseObj: Value, obj: Value, env: Value, fuel: nat): Result<Outcome, Error>
    decreases fuel, 3, 0
  {
    var condition :- Cadr(h, obj);
    var test :- Eval(h, falseObj, condition, env, fuel);
    var truth :- IsTrue(test.value, falseObj);
    if truth then
      var consequent :- Caddr(test.heap, obj);
      Eval(test.heap, falseObj, consequent, env, fuel)
    else
      var alternative :- Cadddr(test.heap, obj);
      Eval(test.heap, falseObj, alternative, env, fuel)
  }

  /**
    eval_sequence: every expression of the list for effect, and the last
    one's value; the next cell is read after the previous expression ran.
  */
  function EvalSequence(h: Heap, falseObj: Value, exps: Value, env: Value, fuel: nat): Result<Outcome, Error>
    decreases fuel, 0, 0
  {
    if fuel == 0 then Err(OutOfFuel)
    else
      var exp :- Car(h, exps);
      var rest :- Cdr(h, exps);
      if rest == Null then Eval(h, falseObj, exp, env, fuel - 1)
      else
        var first :- Eval(h, falseObj, exp, env, fuel - 1);
        var next :- Cdr(first.heap, exps);
        EvalSequence(first.heap, falseObj, next, env, fuel - 1)
  }

  /** One operand evaluated: the heap it leaves, its value, and the rest of the operand list. */
  datatype OperandStep = OperandStep(heap: Heap, value: Value, rest: Value)

  /**
    One pass of eval_application's operand loop over the non-empty list
    `remaining`, `done` operands already in the buffer: the operand is
    evaluated and stored, which the buffer's 33rd slot overflows, then
    the rest of the list is read from the heap the evaluation left.
  */
  function EvalOperand(h: Heap, falseObj: Value, remaining: Value, env: Value, fuel: nat, done: seq<Value>): (r: Result<OperandStep, Error>)
    requires |done| <= MaxOperands
    decreases fuel, 1, MaxOperands - |done| + 1
    ensures r.Ok? ==> |done| < MaxOperands
  {
    var unevaled :- Car(h, remaining);
    var evaled :- Eval(h, falseObj, unevaled, env, fuel);
    if |done| == MaxOperands then Err(BufferOverflow)
    else
      var next :- Cdr(evaled.heap, remaining);
      Ok(OperandStep(evaled.heap, evaled.value, next))
  }

  /**
    The operand loop of eval_application: each operand evaluated in turn
    into the buffer.
  */
  function EvalOperands(h: Heap, falseObj: Value, remaining: Value, env: Value, fuel: nat, done: seq<Value>): Result<Operands, Error>
    requires |done| <= MaxOperands
    decreases fuel, 1, MaxOperands - |done| + 2
  {
    if remaining == Null then Ok(Operands(h, done))
    else
      var step :- EvalOperand(h, falseObj, remaining, env, fuel, done);
      EvalOperands(step.heap, falseObj, step.rest, env, fuel, done + [step.value])
  }

  /**
    eval_application: the operator, which must come out a closure or a
    primitive, then the operands left to right, gathered into a fresh list;
    a closure's body runs in a frame binding its parameters to that list in
    front of the caller's environment, a primitive gets the operand array.
  */
  function EvalApplication(h: Heap, falseObj: Value, exp: Value, env: Value, fuel: nat): Result<Outcome, Error>
    decreases fuel, 3, 0
  {
    var operator :- Car(h, exp);
    var op :- Eval(h, falseObj, operator, env, fuel);
    ApplyOperator(op.heap, falseObj, op.value, exp, env, fuel)
  }

  /** The operands of an application, evaluated, and the fresh list of their values. */
  datatype Gathered = Gathered(heap: Heap, args: seq<Value>, vals: Value)

  /** The operands of `exp` evaluated into the buffer, then copied into a fresh list. */
  function GatherOperands(h: Heap, falseObj: Value, exp: Value, env: Value, fuel: nat): Result<Gathered, Error>
    decreases fuel, 2, 1
  {
    var operands :- Cdr(h, exp);
    var args :- EvalOperands(h, falseObj, operands, env, fuel, []);
    var vals :- ArrayToCons(args.heap, args.values);
    Ok(Gathered(vals.heap, args.values, vals.value))
  }

  /**
    eval_application once the operator `op` of `exp` is known: it must be
    a closure or a primitive; then the operands, then the call.
  */
  function ApplyOperator(h: Heap, falseObj: Value, op: Value, exp: Value, env: Value, fuel: nat): Result<Outcome, Error>
    decreases fuel, 2, 2
  {
    if !op.Lambda? && !op.Primitive? then
      Err(AssertionFailed("op->type == SCHEME_LAMBDA || op->type == SCHEME_PRIMITIVE"))
    else
    var g :- GatherOperands(h, falseObj, exp, env, fuel);
    ApplyProcedure(g.heap, falseObj, op, g.args, g.vals, env, fuel)
  }

  /**
    The end of eval_application for operator `op`, operand values `args`
    and their fresh list `vals`: a closure's body evaluated as a sequence
    in a new frame in front of the caller's environment `env`, or the
    primitive called on the operand values.
  */
  function ApplyProcedure(h: Heap, falseObj: Value, op: Value, args: seq<Value>, vals: Value, env: Value, fuel: nat): Result<Outcome, Error>
    decreases fuel, 2, 0
  {
    if op.Lambda? then
      var entry :- LambdaAt(h, op);
      var extended :- ExtendEnvironment(h, entry.parameters, vals, env);
      EvalSequence(extended.heap, falseObj, entry.body, extended.value, fuel)
    else
      var entry :- PrimitiveAt(h, op);
      var result :- Apply(h, entry.func, args);
      Ok(Outcome(h, result))
  }
}

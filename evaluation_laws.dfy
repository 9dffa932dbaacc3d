/**
  What the evaluator promises about its step budget and about the forms
  it evaluates.

  The budget `fuel` of Evaluation only stands for the evaluations the C
  program would carry on with: an answer reached within some budget is
  the answer under every larger budget, so the budget cuts evaluations
  short and never changes what they compute.
*/
module EvaluationLaws {
  import opened Wrappers
  import opened Errors
  import opened Memory
  import opened Environment
  import opened Evaluation
  import opened CString
  import EnvironmentLaws
  import Allocator

  /** An answer that did not run out of budget. */
  predicate Settled<T>(r: Result<T, Error>) {
    !(r.Err? && r.error == OutOfFuel)
  }

  /**
    The budget only cuts evaluations short: an answer eval_with_env reaches
    within `fuel` steps, error or value, is its answer under any larger
    budget, with the same final heap.
  */
  lemma {:induction false} EvalMonotone(h: Heap, falseObj: Value, obj: Value, env: Value, fuel: nat, more: nat)
    requires fuel <= more
    ensures Settled(Eval(h, falseObj, obj, env, fuel)) ==>
      Eval(h, falseObj, obj, env, more) == Eval(h, falseObj, obj, env, fuel)
    decreases more - fuel
  {
    if fuel < more {
      EvalMore(h, falseObj, obj, env, fuel);
      EvalMonotone(h, falseObj, obj, env, fuel + 1, more);
    }
  }

  /** One more unit of budget changes no settled answer (and likewise for every step below). */
  lemma {:induction false} EvalMore(h: Heap, falseObj: Value, obj: Value, env: Value, fuel: nat)
    ensures Settled(Eval(h, falseObj, obj, env, fuel)) ==>
      Eval(h, falseObj, obj, env, fuel + 1) == Eval(h, falseObj, obj, env, fuel)
    decreases fuel, 0, 0
  {
    if fuel > 0 && !IsSelfEvaluating(obj) && !obj.Symbol? {
      EvalFormMore(h, falseObj, obj, env, fuel - 1);
    }
  }

  lemma {:induction false} EvalFormMore(h: Heap, falseObj: Value, obj: Value, env: Value, fuel: nat)
    ensures Settled(EvalForm(h, falseObj, obj, env, fuel)) ==>
      EvalForm(h, falseObj, obj, env, fuel + 1) == EvalForm(h, falseObj, obj, env, fuel)
    decreases fuel, 5, 0
  {
    var isDefinition := IsTaggedList(h, obj, DefineTag);
    var isQuoted := IsTaggedList(h, obj, QuoteTag);
    var isAssignment := IsTaggedList(h, obj, SetTag);
    if isDefinition == Ok(true) {
      FormIsDefinition(h, falseObj, obj, env, fuel);
      EvalDefinitionMore(h, falseObj, obj, env, fuel);
    } else if isDefinition == Ok(false) && isQuoted == Ok(false) && isAssignment == Ok(true) {
      FormIsAssignment(h, falseObj, obj, env, fuel);
      EvalAssignmentMore(h, falseObj, obj, env, fuel);
    } else if isDefinition == Ok(false) && isQuoted == Ok(false) && isAssignment == Ok(false) {
      FormIsRest(h, falseObj, obj, env, fuel);
      EvalFormFromIfMore(h, falseObj, obj, env, fuel);
    } else {
      FormStops(h, falseObj, obj, env, fuel);
    }
  }

  lemma {:induction false} FormIsDefinition(h: Heap, falseObj: Value, obj: Value, env: Value, fuel: nat)
    requires IsTaggedList(h, obj, DefineTag) == Ok(true)
    ensures EvalForm(h, falseObj, obj, env, fuel) == EvalDefinition(h, falseObj, obj, env, fuel)
    ensures EvalForm(h, falseObj, obj, env, fuel + 1) == EvalDefinition(h, falseObj, obj, env, fuel + 1)
  {
  }

  lemma {:induction false} FormIsAssignment(h: Heap, falseObj: Value, obj: Value, env: Value, fuel: nat)
    requires IsTaggedList(h, obj, DefineTag) == Ok(false) && IsTaggedList(h, obj, QuoteTag) == Ok(false)
    requires IsTaggedList(h, obj, SetTag) == Ok(true)
    ensures EvalForm(h, falseObj, obj, env, fuel) == EvalAssignment(h, falseObj, obj, env, fuel)
    ensures EvalForm(h, falseObj, obj, env, fuel + 1) == EvalAssignment(h, falseObj, obj, env, fuel + 1)
  {
  }

  lemma {:induction false} FormIsRest(h: Heap, falseObj: Value, obj: Value, env: Value, fuel: nat)
    requires IsTaggedList(h, obj, DefineTag) == Ok(false) && IsTaggedList(h, obj, QuoteTag) == Ok(false)
    requires IsTaggedList(h, obj, SetTag) == Ok(false)
    ensures EvalForm(h, falseObj, obj, env, fuel) == EvalFormFromIf(h, falseObj, obj, env, fuel)
    ensures EvalForm(h, falseObj, obj, env, fuel + 1) == EvalFormFromIf(h, falseObj, obj, env, fuel + 1)
  {
  }

  /** A quotation, or a recogniser that fails, decides the form without evaluating anything. */
  lemma {:induction false} FormStops(h: Heap, falseObj: Value, obj: Value, env: Value, fuel: nat)
    requires IsTaggedList(h, obj, DefineTag) != Ok(true)
    requires !(IsTaggedList(h, obj, DefineTag) == Ok(false) && IsTaggedList(h, obj, QuoteTag) == Ok(false) && IsTaggedList(h, obj, SetTag).Ok?)
    ensures EvalForm(h, falseObj, obj, env, fuel + 1) == EvalForm(h, falseObj, obj, env, fuel)
  {
  }

  lemma {:induction false} EvalFormFromIfMore(h: Heap, falseObj: Value, obj: Value, env: Value, fuel: nat)
    ensures Settled(EvalFormFromIf(h, falseObj, obj, env, fuel)) ==>
      EvalFormFromIf(h, falseObj, obj, env, fuel + 1) == EvalFormFromIf(h, falseObj, obj, env, fuel)
    decreases fuel, 4, 0
  {
    var isIf := IsTaggedList(h, obj, IfTag);
    var isLambda := IsTaggedList(h, obj, LambdaTag);
    var isBegin := IsTaggedList(h, obj, BeginTag);
    if isIf == Ok(true) {
      FormIsIf(h, falseObj, obj, env, fuel);
      EvalIfMore(h, falseObj, obj, env, fuel);
    } else if isIf == Ok(false) && isLambda == Ok(false) && isBegin == Ok(true) && Cdr(h, obj).Ok? {
      FormIsBegin(h, falseObj, obj, env, fuel);
      EvalSequenceMore(h, falseObj, Cdr(h, obj).value, env, fuel);
    } else if isIf == Ok(false) && isLambda == Ok(false) && isBegin == Ok(false) && obj.Cons? {
      FormIsApplication(h, falseObj, obj, env, fuel);
      EvalApplicationMore(h, falseObj, obj, env, fuel);
    } else {
      FormFromIfStops(h, falseObj, obj, env, fuel);
    }
  }

  lemma {:induction false} FormIsIf(h: Heap, falseObj: Value, obj: Value, env: Value, fuel: nat)
    requires IsTaggedList(h, obj, IfTag) == Ok(true)
    ensures EvalFormFromIf(h, falseObj, obj, env, fuel) == EvalIf(h, falseObj, obj, env, fuel)
    ensures EvalFormFromIf(h, falseObj, obj, env, fuel + 1) == EvalIf(h, falseObj, obj, env, fuel + 1)
  {
  }

  lemma {:induction false} FormIsBegin(h: Heap, falseObj: Value, obj: Value, env: Value, fuel: nat)
    requires IsTaggedList(h, obj, IfTag) == Ok(false) && IsTaggedList(h, obj, LambdaTag) == Ok(false)
    requires IsTaggedList(h, obj, BeginTag) == Ok(true) && Cdr(h, obj).Ok?
    ensures EvalFormFromIf(h, falseObj, obj, env, fuel) == EvalSequence(h, falseObj, Cdr(h, obj).value, env, fuel)
    ensures EvalFormFromIf(h, falseObj, obj, env, fuel + 1) == EvalSequence(h, falseObj, Cdr(h, obj).value, env, fuel + 1)
  {
  }

  lemma {:induction false} FormIsApplication(h: Heap, falseObj: Value, obj: Value, env: Value, fuel: nat)
    requires IsTaggedList(h, obj, IfTag) == Ok(false) && IsTaggedList(h, obj, LambdaTag) == Ok(false)
    requires IsTaggedList(h, obj, BeginTag) == Ok(false) && obj.Cons?
    ensures EvalFormFromIf(h, falseObj, obj, env, fuel) == EvalApplication(h, falseObj, obj, env, fuel)
    ensures EvalFormFromIf(h, falseObj, obj, env, fuel + 1) == EvalApplication(h, falseObj, obj, env, fuel + 1)
  {
  }

  /** A lambda, or a recogniser or selector that fails, decides the form without evaluating anything. */
  lemma {:induction false} FormFromIfStops(h: Heap, falseObj: Value, obj: Value, env: Value, fuel: nat)
    requires IsTaggedList(h, obj, IfTag) != Ok(true)
    requires !(IsTaggedList(h, obj, IfTag) == Ok(false) && IsTaggedList(h, obj, LambdaTag) == Ok(false)
               && IsTaggedList(h, obj, BeginTag) == Ok(true) && Cdr(h, obj).Ok?)
    requires !(IsTaggedList(h, obj, IfTag) == Ok(false) && IsTaggedList(h, obj, LambdaTag) == Ok(false)
               && IsTaggedList(h, obj, BeginTag) == Ok(false) && obj.Cons?)
    ensures EvalFormFromIf(h, falseObj, obj, env, fuel + 1) == EvalFormFromIf(h, falseObj, obj, env, fuel)
  {
  }

  lemma {:induction false} EvalDefinitionMore(h: Heap, falseObj: Value, obj: Value, env: Value, fuel: nat)
    ensures Settled(EvalDefinition(h, falseObj, obj, env, fuel)) ==>
      EvalDefinition(h, falseObj, obj, env, fuel + 1) == EvalDefinition(h, falseObj, obj, env, fuel)
    decreases fuel, 3, 0
  {
    var valueExp := Caddr(h, obj);
    if valueExp.Ok? {
      EvalMore(h, falseObj, valueExp.value, env, fuel);
    }
  }

  lemma {:induction false} EvalAssignmentMore(h: Heap, falseObj: Value, obj: Value, env: Value, fuel: nat)
    ensures Settled(EvalAssignment(h, falseObj, obj, env, fuel)) ==>
      EvalAssignment(h, falseObj, obj, env, fuel + 1) == EvalAssignment(h, falseObj, obj, env, fuel)
    decreases fuel, 3, 0
  {
    var valueExp := Caddr(h, obj);
    if valueExp.Ok? {
      EvalMore(h, falseObj, valueExp.value, env, fuel);
    }
  }

  lemma {:induction false} EvalIfMore(h: Heap, falseObj: Value, obj: Value, env: Value, fuel: nat)
    ensures Settled(EvalIf(h, falseObj, obj, env, fuel)) ==>
      EvalIf(h, falseObj, obj, env, fuel + 1) == EvalIf(h, falseObj, obj, env, fuel)
    decreases fuel, 3, 0
  {
    var condition := Cadr(h, obj);
    if condition.Ok? {
      EvalMore(h, falseObj, condition.value, env, fuel);
      var test := Eval(h, falseObj, condition.value, env, fuel);
      if test.Err? {
        IfTestFails(h, falseObj, obj, env, fuel);
      } else {
        IfTested(h, falseObj, obj, env, fuel, test.value);
        IfTested(h, falseObj, obj, env, fuel + 1, test.value);
        var branch := Branch(falseObj, obj, test.value);
        if branch.Ok? {
          EvalMore(test.value.heap, falseObj, branch.value, env, fuel);
        }
      }
    }
  }

  /** The branch expression an if selects once its test has produced `test`. */
  function Branch(falseObj: Value, obj: Value, test: Outcome): Result<Value, Error> {
    var truth :- IsTrue(test.value, falseObj);
    if truth then Caddr(test.heap, obj) else Cadddr(test.heap, obj)
  }

  lemma {:induction false} IfTestFails(h: Heap, falseObj: Value, obj: Value, env: Value, fuel: nat)
    requires Cadr(h, obj).Ok? && Eval(h, falseObj, Cadr(h, obj).value, env, fuel).Err?
    ensures EvalIf(h, falseObj, obj, env, fuel) == Err(Eval(h, falseObj, Cadr(h, obj).value, env, fuel).error)
    ensures Eval(h, falseObj, Cadr(h, obj).value, env, fuel + 1).Err? ==>
      EvalIf(h, falseObj, obj, env, fuel + 1) == Err(Eval(h, falseObj, Cadr(h, obj).value, env, fuel + 1).error)
  {
  }

  lemma {:induction false} IfTested(h: Heap, falseObj: Value, obj: Value, env: Value, fuel: nat, test: Outcome)
    requires Cadr(h, obj).Ok? && Eval(h, falseObj, Cadr(h, obj).value, env, fuel) == Ok(test)
    ensures var branch := Branch(falseObj, obj, test);
      && (branch.Err? ==> EvalIf(h, falseObj, obj, env, fuel) == Err(branch.error))
      && (branch.Ok? ==> EvalIf(h, falseObj, obj, env, fuel) == Eval(test.heap, falseObj, branch.value, env, fuel))
  {
  }

  lemma {:induction false} EvalSequenceMore(h: Heap, falseObj: Value, exps: Value, env: Value, fuel: nat)
    ensures Settled(EvalSequence(h, falseObj, exps, env, fuel)) ==>
      EvalSequence(h, falseObj, exps, env, fuel + 1) == EvalSequence(h, falseObj, exps, env, fuel)
    decreases fuel, 0, 2
  {
    if fuel > 0 && Car(h, exps).Ok? && Cdr(h, exps).Ok? {
      if Cdr(h, exps).value == Null {
        EvalMore(h, falseObj, Car(h, exps).value, env, fuel - 1);
      } else {
        SequenceRestMore(h, falseObj, exps, env, fuel);
      }
    }
  }

  /** The case of a sequence with more than one expression. */
  lemma {:induction false} SequenceRestMore(h: Heap, falseObj: Value, exps: Value, env: Value, fuel: nat)
    requires fuel > 0 && Car(h, exps).Ok? && Cdr(h, exps).Ok? && Cdr(h, exps).value != Null
    ensures Settled(EvalSequence(h, falseObj, exps, env, fuel)) ==>
      EvalSequence(h, falseObj, exps, env, fuel + 1) == EvalSequence(h, falseObj, exps, env, fuel)
    decreases fuel, 0, 1
  {
    var exp := Car(h, exps).value;
    EvalMore(h, falseObj, exp, env, fuel - 1);
    var first := Eval(h, falseObj, exp, env, fuel - 1);
    if first.Err? {
      SequenceFirstFails(h, falseObj, exps, env, fuel);
    } else if Cdr(first.value.heap, exps).Err? {
      SequenceNextFails(h, falseObj, exps, env, fuel, first.value);
    } else {
      SequenceContinuesMore(h, falseObj, exps, env, fuel, first.value, Cdr(first.value.heap, exps).value);
    }
  }

  /** The case of a sequence whose first expression has produced `first`. */
  lemma {:induction false} SequenceContinuesMore(h: Heap, falseObj: Value, exps: Value, env: Value, fuel: nat, first: Outcome, next: Value)
    requires fuel > 0
    requires Car(h, exps).Ok? && Cdr(h, exps).Ok? && Cdr(h, exps).value != Null
    requires Eval(h, falseObj, Car(h, exps).value, env, fuel - 1) == Ok(first)
    requires Eval(h, falseObj, Car(h, exps).value, env, fuel) == Ok(first)
    requires Cdr(first.heap, exps) == Ok(next)
    ensures Settled(EvalSequence(h, falseObj, exps, env, fuel)) ==>
      EvalSequence(h, falseObj, exps, env, fuel + 1) == EvalSequence(h, falseObj, exps, env, fuel)
    decreases fuel, 0, 0
  {
    SequenceUnfolds(h, falseObj, exps, env, fuel, first, next);
    EvalSequenceMore(first.heap, falseObj, next, env, fuel - 1);
  }

  /** A sequence stops with the error of its first expression. */
  lemma {:induction false} SequenceFirstFails(h: Heap, falseObj: Value, exps: Value, env: Value, fuel: nat)
    requires fuel > 0
    requires Car(h, exps).Ok? && Cdr(h, exps).Ok? && Cdr(h, exps).value != Null
    requires Eval(h, falseObj, Car(h, exps).value, env, fuel - 1).Err?
    ensures EvalSequence(h, falseObj, exps, env, fuel) == Err(Eval(h, falseObj, Car(h, exps).value, env, fuel - 1).error)
    ensures Eval(h, falseObj, Car(h, exps).value, env, fuel).Err? ==>
      EvalSequence(h, falseObj, exps, env, fuel + 1) == Err(Eval(h, falseObj, Car(h, exps).value, env, fuel).error)
  {
  }

  /** A sequence stops when the rest of its list cannot be read after its first expression. */
  lemma {:induction false} SequenceNextFails(h: Heap, falseObj: Value, exps: Value, env: Value, fuel: nat, first: Outcome)
    requires fuel > 0
    requires Car(h, exps).Ok? && Cdr(h, exps).Ok? && Cdr(h, exps).value != Null
    requires Eval(h, falseObj, Car(h, exps).value, env, fuel - 1) == Ok(first)
    requires Eval(h, falseObj, Car(h, exps).value, env, fuel) == Ok(first)
    requires Cdr(first.heap, exps).Err?
    ensures EvalSequence(h, falseObj, exps, env, fuel) == Err(Cdr(first.heap, exps).error)
    ensures EvalSequence(h, falseObj, exps, env, fuel + 1) == Err(Cdr(first.heap, exps).error)
  {
  }

  /** A sequence of more than one expression continues after its first one. */
  lemma {:induction false} SequenceUnfolds(h: Heap, falseObj: Value, exps: Value, env: Value, fuel: nat, first: Outcome, next: Value)
    requires fuel > 0
    requires Car(h, exps).Ok? && Cdr(h, exps).Ok? && Cdr(h, exps).value != Null
    requires Eval(h, falseObj, Car(h, exps).value, env, fuel - 1) == Ok(first)
    requires Eval(h, falseObj, Car(h, exps).value, env, fuel) == Ok(first)
    requires Cdr(first.heap, exps) == Ok(next)
    ensures EvalSequence(h, falseObj, exps, env, fuel) == EvalSequence(first.heap, falseObj, next, env, fuel - 1)
    ensures EvalSequence(h, falseObj, exps, env, fuel + 1) == EvalSequence(first.heap, falseObj, next, env, fuel)
  {
  }

  lemma {:induction false} EvalOperandMore(h: Heap, falseObj: Value, remaining: Value, env: Value, fuel: nat, done: seq<Value>)
    requires |done| <= MaxOperands
    ensures Settled(EvalOperand(h, falseObj, remaining, env, fuel, done)) ==>
      EvalOperand(h, falseObj, remaining, env, fuel + 1, done) == EvalOperand(h, falseObj, remaining, env, fuel, done)
    decreases fuel, 1, MaxOperands - |done| + 1
  {
    var unevaled := Car(h, remaining);
    if unevaled.Ok? {
      EvalMore(h, falseObj, unevaled.value, env, fuel);
    }
  }

  lemma {:induction false} EvalOperandsMore(h: Heap, falseObj: Value, remaining: Value, env: Value, fuel: nat, done: seq<Value>)
    requires |done| <= MaxOperands
    ensures Settled(EvalOperands(h, falseObj, remaining, env, fuel, done)) ==>
      EvalOperands(h, falseObj, remaining, env, fuel + 1, done) == EvalOperands(h, falseObj, remaining, env, fuel, done)
    decreases fuel, 1, MaxOperands - |done| + 2
  {
    if remaining != Null {
      EvalOperandMore(h, falseObj, remaining, env, fuel, done);
      var step := EvalOperand(h, falseObj, remaining, env, fuel, done);
      if step.Ok? {
        EvalOperandsMore(step.value.heap, falseObj, step.value.rest, env, fuel, done + [step.value.value]);
      }
    }
  }

  lemma {:induction false} EvalApplicationMore(h: Heap, falseObj: Value, exp: Value, env: Value, fuel: nat)
    ensures Settled(EvalApplication(h, falseObj, exp, env, fuel)) ==>
      EvalApplication(h, falseObj, exp, env, fuel + 1) == EvalApplication(h, falseObj, exp, env, fuel)
    decreases fuel, 3, 0
  {
    var operator := Car(h, exp);
    if operator.Ok? {
      EvalMore(h, falseObj, operator.value, env, fuel);
      var op := Eval(h, falseObj, operator.value, env, fuel);
      if op.Ok? {
        ApplyOperatorMore(op.value.heap, falseObj, op.value.value, exp, env, fuel);
      }
    }
  }

  lemma {:induction false} GatherOperandsMore(h: Heap, falseObj: Value, exp: Value, env: Value, fuel: nat)
    ensures Settled(GatherOperands(h, falseObj, exp, env, fuel)) ==>
      GatherOperands(h, falseObj, exp, env, fuel + 1) == GatherOperands(h, falseObj, exp, env, fuel)
    decreases fuel, 2, 1
  {
    var operands := Cdr(h, exp);
    if operands.Ok? {
      EvalOperandsMore(h, falseObj, operands.value, env, fuel, []);
    }
  }

  lemma {:induction false} ApplyOperatorMore(h: Heap, falseObj: Value, op: Value, exp: Value, env: Value, fuel: nat)
    ensures Settled(ApplyOperator(h, falseObj, op, exp, env, fuel)) ==>
      ApplyOperator(h, falseObj, op, exp, env, fuel + 1) == ApplyOperator(h, falseObj, op, exp, env, fuel)
    decreases fuel, 2, 2
  {
    if op.Lambda? || op.Primitive? {
      GatherOperandsMore(h, falseObj, exp, env, fuel);
      var g := GatherOperands(h, falseObj, exp, env, fuel);
      OperatorGathered(h, falseObj, op, exp, env, fuel);
      OperatorGathered(h, falseObj, op, exp, env, fuel + 1);
      if g.Ok? {
        ApplyProcedureMore(g.value.heap, falseObj, op, g.value.args, g.value.vals, env, fuel);
      }
    }
  }

  lemma {:induction false} OperatorGathered(h: Heap, falseObj: Value, op: Value, exp: Value, env: Value, fuel: nat)
    requires op.Lambda? || op.Primitive?
    ensures var g := GatherOperands(h, falseObj, exp, env, fuel);
      && (g.Err? ==> ApplyOperator(h, falseObj, op, exp, env, fuel) == Err(g.error))
      && (g.Ok? ==> ApplyOperator(h, falseObj, op, exp, env, fuel) ==
                    ApplyProcedure(g.value.heap, falseObj, op, g.value.args, g.value.vals, env, fuel))
  {
  }

  lemma {:induction false} ApplyProcedureMore(h: Heap, falseObj: Value, op: Value, args: seq<Value>, vals: Value, env: Value, fuel: nat)
    ensures Settled(ApplyProcedure(h, falseObj, op, args, vals, env, fuel)) ==>
      ApplyProcedure(h, falseObj, op, args, vals, env, fuel + 1) == ApplyProcedure(h, falseObj, op, args, vals, env, fuel)
    decreases fuel, 2, 0
  {
    if op.Lambda? && LambdaAt(h, op).Ok? {
      var entry := LambdaAt(h, op).value;
      var extended := ExtendEnvironment(h, entry.parameters, vals, env);
      if extended.Ok? {
        ProcedureIsClosure(h, falseObj, op, args, vals, env, fuel);
        EvalSequenceMore(extended.value.heap, falseObj, entry.body, extended.value.value, fuel);
        return;
      }
    }
    ProcedureStops(h, falseObj, op, args, vals, env, fuel);
  }

  lemma {:induction false} ProcedureIsClosure(h: Heap, falseObj: Value, op: Value, args: seq<Value>, vals: Value, env: Value, fuel: nat)
    requires op.Lambda? && LambdaAt(h, op).Ok?
    requires ExtendEnvironment(h, LambdaAt(h, op).value.parameters, vals, env).Ok?
    ensures var entry := LambdaAt(h, op).value;
      var extended := ExtendEnvironment(h, entry.parameters, vals, env).value;
      && ApplyProcedure(h, falseObj, op, args, vals, env, fuel) == EvalSequence(extended.heap, falseObj, entry.body, extended.value, fuel)
      && ApplyProcedure(h, falseObj, op, args, vals, env, fuel + 1) == EvalSequence(extended.heap, falseObj, entry.body, extended.value, fuel + 1)
  {
  }

  /** A primitive, or a closure whose frame cannot be made, is applied without evaluating anything. */
  lemma {:induction false} ProcedureStops(h: Heap, falseObj: Value, op: Value, args: seq<Value>, vals: Value, env: Value, fuel: nat)
    requires !(op.Lambda? && LambdaAt(h, op).Ok? && ExtendEnvironment(h, LambdaAt(h, op).value.parameters, vals, env).Ok?)
    ensures ApplyProcedure(h, falseObj, op, args, vals, env, fuel + 1) == ApplyProcedure(h, falseObj, op, args, vals, env, fuel)
  {
  }

  /** `exp` is a list whose head is the symbol spelled `tag`. */
  ghost predicate Headed(h: Heap, exp: Value, tag: seq<byte>) {
    Readable(h, exp) && SymbolAt(h, h.conses[exp.index].car) == Ok(tag)
  }

  /** (quote text) evaluates to its text and leaves the heap as it was. */
  lemma {:induction false} EvalQuote(h: Heap, falseObj: Value, obj: Value, env: Value, fuel: nat)
    requires fuel > 0 && Headed(h, obj, QuoteTag) && Cadr(h, obj).Ok?
    ensures Eval(h, falseObj, obj, env, fuel) == Ok(Outcome(h, Cadr(h, obj).value))
  {
    assert IsTaggedList(h, obj, DefineTag) == Ok(false);
    assert IsTaggedList(h, obj, QuoteTag) == Ok(true);
  }

  /**
    (define variable exp) evaluates `exp` and then binds the variable in
    the first frame, where a lookup finds the value.
  */
  lemma {:induction false} EvalDefineThenLookup(h: Heap, falseObj: Value, obj: Value, env: Value, fuel: nat, value: Outcome)
    requires fuel > 0 && Headed(h, obj, DefineTag) && Cadr(h, obj).Ok? && Caddr(h, obj).Ok?
    requires Eval(h, falseObj, Caddr(h, obj).value, env, fuel - 1) == Ok(value)
    requires DefineVariable(value.heap, Cadr(h, obj).value, value.value, env).Ok?
    requires EnvironmentLaws.FirstFrameSeparated(value.heap, env) && |value.heap.conses| + 2 <= Allocator.TwoTo63
    ensures Eval(h, falseObj, obj, env, fuel).Ok?
    ensures LookupVariableValue(Eval(h, falseObj, obj, env, fuel).value.heap, Cadr(h, obj).value, env) == Ok(Some(value.value))
  {
    EvalDefine(h, falseObj, obj, env, fuel, value);
    EnvironmentLaws.DefineThenLookup(value.heap, Cadr(h, obj).value, value.value, env);
  }

  /** A definition's value is bound by define_variable in the heap the value's evaluation left. */
  lemma {:induction false} EvalDefine(h: Heap, falseObj: Value, obj: Value, env: Value, fuel: nat, value: Outcome)
    requires fuel > 0 && Headed(h, obj, DefineTag) && Cadr(h, obj).Ok? && Caddr(h, obj).Ok?
    requires Eval(h, falseObj, Caddr(h, obj).value, env, fuel - 1) == Ok(value)
    ensures Eval(h, falseObj, obj, env, fuel) == DefineVariable(value.heap, Cadr(h, obj).value, value.value, env)
  {
    assert IsTaggedList(h, obj, DefineTag) == Ok(true);
    FormIsDefinition(h, falseObj, obj, env, fuel - 1);
  }

  /**
    (if test consequent alternative) evaluates the alternative exactly when
    the test's value is the symbol g_false, and the consequent when it is
    another symbol or an object of another kind.
  */
  lemma {:induction false} EvalIfChooses(h: Heap, falseObj: Value, obj: Value, env: Value, fuel: nat, test: Outcome)
    requires fuel > 0 && Headed(h, obj, IfTag) && Cadr(h, obj).Ok?
    requires Eval(h, falseObj, Cadr(h, obj).value, env, fuel - 1) == Ok(test)
    requires falseObj.Symbol? && Caddr(test.heap, obj).Ok? && Cadddr(test.heap, obj).Ok?
    ensures test.value == falseObj ==>
      Eval(h, falseObj, obj, env, fuel) == Eval(test.heap, falseObj, Cadddr(test.heap, obj).value, env, fuel - 1)
    ensures test.value != falseObj && (test.value.Symbol? || KindOf(test.value) != KindOf(falseObj)) ==>
      Eval(h, falseObj, obj, env, fuel) == Eval(test.heap, falseObj, Caddr(test.heap, obj).value, env, fuel - 1)
  {
    IfReached(h, falseObj, obj, env, fuel);
    IfTested(h, falseObj, obj, env, fuel - 1, test);
  }

  lemma {:induction false} IfReached(h: Heap, falseObj: Value, obj: Value, env: Value, fuel: nat)
    requires fuel > 0 && Headed(h, obj, IfTag)
    ensures Eval(h, falseObj, obj, env, fuel) == EvalIf(h, falseObj, obj, env, fuel - 1)
  {
    assert IsTaggedList(h, obj, DefineTag) == Ok(false);
    assert IsTaggedList(h, obj, QuoteTag) == Ok(false);
    assert IsTaggedList(h, obj, SetTag) == Ok(false);
    assert IsTaggedList(h, obj, IfTag) == Ok(true);
    EvalOfList(h, falseObj, obj, env, fuel);
    FormOfIf(h, falseObj, obj, env, fuel - 1);
  }

  lemma {:induction false} FormOfIf(h: Heap, falseObj: Value, obj: Value, env: Value, fuel: nat)
    requires IsTaggedList(h, obj, DefineTag) == Ok(false) && IsTaggedList(h, obj, QuoteTag) == Ok(false)
    requires IsTaggedList(h, obj, SetTag) == Ok(false) && IsTaggedList(h, obj, IfTag) == Ok(true)
    ensures EvalForm(h, falseObj, obj, env, fuel) == EvalIf(h, falseObj, obj, env, fuel)
  {
    FormIsRest(h, falseObj, obj, env, fuel);
    FormIsIf(h, falseObj, obj, env, fuel);
  }

  /** The head of `exp` names no special form, so eval_with_env treats `exp` as an application. */
  ghost predicate PlainHead(h: Heap, exp: Value) {
    && Readable(h, exp)
    && var head := h.conses[exp.index].car;
    && (head.Symbol? ==>
          SymbolAt(h, head).Ok? && SymbolAt(h, head).value !in {DefineTag, QuoteTag, SetTag, IfTag, LambdaTag, BeginTag})
  }

  /**
    array_to_cons asserts it is given at least one object, so applying a
    closure or a primitive to no operands at all aborts.
  */
  lemma {:induction false} EvalCallWithoutOperands(h: Heap, falseObj: Value, obj: Value, env: Value, fuel: nat, op: Outcome)
    requires fuel > 0 && PlainHead(h, obj)
    requires Eval(h, falseObj, h.conses[obj.index].car, env, fuel - 1) == Ok(op)
    requires op.value.Lambda? || op.value.Primitive?
    requires Cdr(op.heap, obj) == Ok(Null)
    ensures Eval(h, falseObj, obj, env, fuel) == Err(AssertionFailed("num_objects > 0"))
  {
    PlainHeadIsNoForm(h, obj);
    ApplicationReached(h, falseObj, obj, env, fuel);
    OperatorGathered(op.heap, falseObj, op.value, obj, env, fuel - 1);
  }

  lemma {:induction false} ApplicationReached(h: Heap, falseObj: Value, obj: Value, env: Value, fuel: nat)
    requires fuel > 0 && obj.Cons?
    requires IsTaggedList(h, obj, DefineTag) == Ok(false) && IsTaggedList(h, obj, QuoteTag) == Ok(false)
    requires IsTaggedList(h, obj, SetTag) == Ok(false) && IsTaggedList(h, obj, IfTag) == Ok(false)
    requires IsTaggedList(h, obj, LambdaTag) == Ok(false) && IsTaggedList(h, obj, BeginTag) == Ok(false)
    ensures Eval(h, falseObj, obj, env, fuel) == EvalApplication(h, falseObj, obj, env, fuel - 1)
  {
    EvalOfList(h, falseObj, obj, env, fuel);
    FormOfApplication(h, falseObj, obj, env, fuel - 1);
  }

  /** A list is evaluated as a form, with one unit of fuel less. */
  lemma {:induction false} EvalOfList(h: Heap, falseObj: Value, obj: Value, env: Value, fuel: nat)
    requires fuel > 0 && obj.Cons?
    ensures Eval(h, falseObj, obj, env, fuel) == EvalForm(h, falseObj, obj, env, fuel - 1)
  {
  }

  lemma {:induction false} FormOfApplication(h: Heap, falseObj: Value, obj: Value, env: Value, fuel: nat)
    requires obj.Cons?
    requires IsTaggedList(h, obj, DefineTag) == Ok(false) && IsTaggedList(h, obj, QuoteTag) == Ok(false)
    requires IsTaggedList(h, obj, SetTag) == Ok(false) && IsTaggedList(h, obj, IfTag) == Ok(false)
    requires IsTaggedList(h, obj, LambdaTag) == Ok(false) && IsTaggedList(h, obj, BeginTag) == Ok(false)
    ensures EvalForm(h, falseObj, obj, env, fuel) == EvalApplication(h, falseObj, obj, env, fuel)
  {
    FormIsRest(h, falseObj, obj, env, fuel);
    FormIsApplication(h, falseObj, obj, env, fuel);
  }

  /** None of the recognisers accepts a list with a plain head. */
  lemma {:induction false} PlainHeadIsNoForm(h: Heap, obj: Value)
    requires PlainHead(h, obj)
    ensures IsTaggedList(h, obj, DefineTag) == Ok(false) && IsTaggedList(h, obj, QuoteTag) == Ok(false)
    ensures IsTaggedList(h, obj, SetTag) == Ok(false) && IsTaggedList(h, obj, IfTag) == Ok(false)
    ensures IsTaggedList(h, obj, LambdaTag) == Ok(false) && IsTaggedList(h, obj, BeginTag) == Ok(false)
  {
  }
}

/**
  The interpreter's state and its operations as the C code performs them:
  cursor loops over the cons store, writes through cons entries, and an
  evaluator whose tail positions (the branches of if, the last expression
  of a sequence, a closure's body) are iterations of one loop rather than
  nested calls.

  Each method is proved against the function of the same name in the
  Environment or Evaluation module: it answers what the function answers
  and leaves the store holding the heap the function yields.
*/
module Interpreter {
  import opened Wrappers
  import opened Errors
  import opened CString
  import opened Memory
  import opened Environment
  import opened Evaluation
  import opened Primitives

  /** "false" and "true", the names setup_env binds. */
  const FalseText: seq<byte> := [0x66, 0x61, 0x6C, 0x73, 0x65]
  const TrueText: seq<byte> := [0x74, 0x72, 0x75, 0x65]

  /** A method's answer and final heap agree with what a specification function yields. */
  predicate Reflects(r: Result<Value, Error>, spec: Result<Outcome, Error>, h: Heap) {
    match spec
    case Ok(o) => r == Ok(o.value) && h == o.heap
    case Err(e) => r == Err(e)
  }

  /** The operand buffer a method filled and its final heap agree with the specification's. */
  predicate Buffers(r: Result<seq<Value>, Error>, spec: Result<Operands, Error>, h: Heap) {
    match spec
    case Ok(o) => r == Ok(o.values) && h == o.heap
    case Err(e) => r == Err(e)
  }

  /** What internal_length answers for the list continuing at `c` after `k` cells. */
  ghost function CountFrom(h: Heap, c: Value, k: nat): Result<nat, Error>
    requires k <= |h.conses|
  {
    var cells :- SpineFrom(h, c, k);
    Ok(k + |cells|)
  }

  /**
    setup_env: an environment of one frame, made from two empty lists,
    in which "false" and then "true" are defined.
  */
  function SetupEnv(h: Heap, falseObj: Value, trueObj: Value): Result<Outcome, Error> {
    var env :- ExtendEnvironment(h, Null, Null, Null);
    var f := Intern(env.heap, FalseText);
    var d1 :- DefineVariable(f.heap, f.value, falseObj, env.value);
    var t := Intern(d1.heap, TrueText);
    var d2 :- DefineVariable(t.heap, t.value, trueObj, env.value);
    Ok(Outcome(d2.heap, env.value))
  }

  /**
    primitives_init from table row `i` on: each row becomes a primitive
    entry and, through the install hook, a definition of its name in
    the global environment.
  */
  function InstallFrom(h: Heap, env: Value, hooked: bool, i: nat): Result<Heap, Error>
    requires i <= |Table|
    decreases |Table| - i
  {
    if i == |Table| then Ok(h)
    else
      var p := NewPrimitive(h, PrimitiveEntry(Table[i].name, Table[i].func));
      if !hooked then InstallFrom(p.heap, env, hooked, i + 1)
      else
        var d :- DefineInstalled(p.heap, env, p.value, Table[i].name);
        InstallFrom(d.heap, env, hooked, i + 1)
  }

  /** did_install_primitive: the new primitive defined under its own name in `env`. */
  function DefineInstalled(h: Heap, env: Value, primitive: Value, name: seq<byte>): Result<Outcome, Error> {
    var s := Intern(h, name);
    DefineVariable(s.heap, s.value, primitive, env)
  }

  /**
    What one step of evaluation leaves to do: nothing more (the answer),
    or an evaluation in tail position, of an expression or of a sequence,
    which the evaluator's loop takes up without a nested call.
  */
  datatype Next =
    | Done(result: Result<Value, Error>)
    | EvalNext(obj: Value, env: Value, fuel: nat)
    | SequenceNext(exps: Value, env: Value, fuel: nat)

  /**
    A step meets `spec` from heap `h`: a finished step reflects it, and a
    tail evaluation, on less fuel than `bound`, computes it from `h`.
  */
  ghost predicate Continues(next: Next, spec: Result<Outcome, Error>, h: Heap, falseObj: Value, bound: nat) {
    match next
    case Done(r) => Reflects(r, spec, h)
    case EvalNext(obj, env, fuel) => fuel < bound && spec == Eval(h, falseObj, obj, env, fuel)
    case SequenceNext(exps, env, fuel) => fuel < bound && spec == EvalSequence(h, falseObj, exps, env, fuel)
  }

  /** The cells of a list of `n + 1` objects are those of `n` objects, linked on to one more. */
  lemma {:induction false} ListCellsGrow(base: nat, objects: seq<Value>, n: nat)
    requires 1 <= n < |objects|
    ensures ListCells(base, objects[..n + 1])
         == ListCells(base, objects[..n])[n - 1 := ConsEntry(objects[n - 1], Cons(base + n))]
            + [ConsEntry(objects[n], Null)]
  {
  }

  /**
    The interpreter: the store, the objects g_false and g_true it was
    given, the global environment, and whether the primitive install hook
    is in place.
  */
  class Interpreter {
    const store: Store
    const falseObj: Value
    const trueObj: Value
    var globalEnv: Value
    var hooked: bool

    ghost predicate Valid()
      reads store.Repr()
    {
      this !in store.Repr() && store.Valid()
    }

    /** The state before interpreter_init: the empty environment is the null value. */
    constructor (store: Store, falseObj: Value, trueObj: Value)
      ensures this.store == store && this.falseObj == falseObj && this.trueObj == trueObj
      ensures globalEnv == Null && !hooked
    {
      this.store := store;
      this.falseObj := falseObj;
      this.trueObj := trueObj;
      globalEnv := Null;
      hooked := false;
    }

    /**
      interpreter_init: the global environment set up, then the hook
      through which each installed primitive gets defined in it.
    */
    method Init() returns (r: Result<int, Error>)
      requires Valid()
      modifies this, store.Repr()
      ensures Valid()
      ensures match SetupEnv(old(store.Abs()), falseObj, trueObj)
              case Ok(o) => r == Ok(0) && store.Abs() == o.heap && globalEnv == o.value && hooked
              case Err(e) => r == Err(e)
    {
      var env := SetupEnvironment();
      if env.Err? {
        return Err(env.error);
      }
      globalEnv := env.value;
      hooked := true;
      return Ok(0);
    }

    /** setup_env: a frame of its own holding false and true. */
    method SetupEnvironment() returns (r: Result<Value, Error>)
      requires Valid()
      modifies store.Repr()
      ensures Valid()
      ensures Reflects(r, SetupEnv(old(store.Abs()), falseObj, trueObj), store.Abs())
    {
      var env := ExtendEnvironment(Null, Null, Null);
      if env.Err? {
        return Err(env.error);
      }
      var f := InternSymbol(FalseText);
      var d1 := DefineVariable(f, falseObj, env.value);
      if d1.Err? {
        return Err(d1.error);
      }
      var t := InternSymbol(TrueText);
      var d2 := DefineVariable(t, trueObj, env.value);
      if d2.Err? {
        return Err(d2.error);
      }
      return Ok(env.value);
    }

    /** did_install_primitive: the primitive defined under `name` in the global environment. */
    method DidInstallPrimitive(primitive: Value, name: seq<byte>) returns (r: Result<Value, Error>)
      requires Valid()
      modifies store.Repr()
      ensures Valid()
      ensures Reflects(r, DefineInstalled(old(store.Abs()), globalEnv, primitive, name), store.Abs())
    {
      var s := InternSymbol(name);
      r := DefineVariable(s, primitive, globalEnv);
    }

    /**
      primitives_init: an entry per table row, each handed to the install
      hook once interpreter_init has registered it.
    */
    method PrimitivesInit() returns (r: Result<int, Error>)
      requires Valid()
      modifies store.Repr()
      ensures Valid()
      ensures match InstallFrom(old(store.Abs()), globalEnv, hooked, 0)
              case Ok(h) => r == Ok(0) && store.Abs() == h
              case Err(e) => r == Err(e)
    {
      ghost var goal := InstallFrom(store.Abs(), globalEnv, hooked, 0);
      var i := 0;
      while i < |Table|
        invariant Valid() && i <= |Table|
        invariant goal == InstallFrom(store.Abs(), globalEnv, hooked, i)
      {
        var p := store.AllocatePrimitive(PrimitiveEntry(Table[i].name, Table[i].func));
        if hooked {
          var d := DidInstallPrimitive(p, Table[i].name);
          if d.Err? {
            return Err(d.error);
          }
        }
        i := i + 1;
      }
      return Ok(0);
    }

    /**
      internal_length: a cursor down the cdrs. A walk that has visited as
      many cells as the store holds has met a cycle, which the C loop
      would follow forever; it stops there as `Diverges`.
    */
    method InternalLength(v: Value) returns (r: Result<nat, Error>)
      requires Valid()
      ensures r == Length(store.Abs(), v)
    {
      if v == Null {
        return Ok(0);
      }
      if !v.Cons? {
        return Err(Fatal("length on something not a cons"));
      }
      var cell := v;
      var i: nat := 0;
      while true
        invariant cell.Cons? && i <= |store.conses|
        invariant Length(store.Abs(), v) == CountFrom(store.Abs(), cell, i)
        decreases |store.conses| - i
      {
        var slot := store.GetConsEntry(cell);
        if slot.Err? {
          return Err(slot.error);
        }
        if i == |store.conses| {
          return Err(Diverges);
        }
        var entry := store.conses[slot.value];
        if entry.cdr == Null {
          return Ok(i + 1);
        }
        if !entry.cdr.Cons? {
          return Err(Fatal("Length on something not a null-terminated list"));
        }
        cell, i := entry.cdr, i + 1;
      }
    }

    /** The two internal_length walks of make_frame and scan_frame, compared. */
    method SameLength(a: Value, b: Value) returns (r: Result<bool, Error>)
      requires Valid()
      ensures r == Environment.SameLength(store.Abs(), a, b)
    {
      var n1 := InternalLength(a);
      if n1.Err? {
        return Err(n1.error);
      }
      var n2 := InternalLength(b);
      if n2.Err? {
        return Err(n2.error);
      }
      return Ok(n1.value == n2.value);
    }

    /** scan_frame: the frame's two lists checked for equal length, then walked in step. */
    method ScanFrame(variable: Value, frame: Value) returns (r: Result<Option<Binding>, Error>)
      requires Valid()
      ensures r == Environment.ScanFrame(store.Abs(), variable, frame)
    {
      var sentry := store.GetSymbolEntry(variable);
      if sentry.Err? {
        return Err(sentry.error);
      }
      var centry := store.GetConsEntry(frame);
      if centry.Err? {
        return Err(centry.error);
      }
      var vars := store.conses[centry.value].car;
      var vals := store.conses[centry.value].cdr;
      var same := SameLength(vars, vals);
      if same.Err? {
        return Err(same.error);
      }
      if !same.value {
        return Err(AssertionFailed("internal_length(vars) == internal_length(vals)"));
      }
      r := ScanLists(store.symbols[sentry.value], vars, vals);
    }

    /**
      The loop of scan_frame: the variable and value lists walked in step
      until a variable's name starts with `text`.
    */
    method ScanLists(text: seq<byte>, vars: Value, vals: Value) returns (r: Result<Option<Binding>, Error>)
      requires Valid() && Environment.SameLength(store.Abs(), vars, vals) == Ok(true)
      ensures r == ScanCells(store.Abs(), text, Spine(store.Abs(), vars).value, Spine(store.Abs(), vals).value, 0)
    {
      ghost var vs := Spine(store.Abs(), vars).value;
      ghost var ws := Spine(store.Abs(), vals).value;
      SpineIsChain(store.Abs(), vars);
      SpineIsChain(store.Abs(), vals);
      var varsCursor, valsCursor := vars, vals;
      ghost var j := 0;
      while varsCursor != Null
        invariant j <= |vs| == |ws|
        invariant varsCursor == (if j < |vs| then vs[j] else Null)
        invariant valsCursor == (if j < |ws| then ws[j] else Null)
        invariant ScanCells(store.Abs(), text, vs, ws, 0) == ScanCells(store.Abs(), text, vs, ws, j)
        decreases |vs| - j
      {
        var varEntry := store.GetConsEntry(varsCursor);
        var valEntry := store.GetConsEntry(valsCursor);
        assert varEntry.Ok? && valEntry.Ok?;
        var name := store.GetSymbolEntry(store.conses[varEntry.value].car);
        if name.Err? {
          return Err(name.error);
        }
        if StrnEq(text, store.symbols[name.value], |text|) {
          return Ok(Some(Binding(varsCursor, valsCursor, store.conses[valEntry.value].car)));
        }
        varsCursor, valsCursor := store.conses[varEntry.value].cdr, store.conses[valEntry.value].cdr;
        j := j + 1;
      }
      return Ok(None);
    }

    /** scan_environment: scan_frame on each frame, innermost first, until one binds the name. */
    method ScanEnvironment(variable: Value, env: Value) returns (r: Result<Option<Binding>, Error>)
      requires Valid()
      ensures r == Environment.ScanEnvironment(store.Abs(), variable, env)
    {
      var cursor := env;
      var k: nat := 0;
      while cursor != Null
        invariant k <= |store.conses|
        invariant Environment.ScanEnvironment(store.Abs(), variable, env) == ScanEnvFrom(store.Abs(), variable, cursor, k)
        decreases |store.conses| - k
      {
        var found, rest := ScanEnvCell(variable, cursor, k);
        if found.Err? || found.value.Some? {
          return found;
        }
        cursor, k := rest, k + 1;
      }
      return Ok(None);
    }

    /**
      One pass of scan_environment's loop, at env cell `cursor` after `k`
      others: the frame's answer, and the env cell that comes next.
    */
    method ScanEnvCell(variable: Value, cursor: Value, k: nat) returns (r: Result<Option<Binding>, Error>, rest: Value)
      requires Valid() && cursor != Null && k <= |store.conses|
      ensures r.Ok? && r.value.None? ==>
        k < |store.conses| && ScanEnvFrom(store.Abs(), variable, cursor, k) == ScanEnvFrom(store.Abs(), variable, rest, k + 1)
      ensures !(r.Ok? && r.value.None?) ==> r == ScanEnvFrom(store.Abs(), variable, cursor, k)
    {
      var entry := store.GetConsEntry(cursor);
      if entry.Err? {
        return Err(entry.error), Null;
      }
      if k == |store.conses| {
        return Err(Diverges), Null;
      }
      r := ScanFrame(variable, store.conses[entry.value].car);
      rest := store.conses[entry.value].cdr;
    }

    /**
      symbol(): the symbol with text `text`, found by a walk over the
      symbols in allocation order, or else allocated.
    */
    method InternSymbol(text: seq<byte>) returns (v: Value)
      requires Valid()
      modifies store.Repr()
      ensures Valid()
      ensures Outcome(store.Abs(), v) == Intern(old(store.Abs()), text)
    {
      var i := 0;
      while i < |store.symbols|
        invariant i <= |store.symbols|
        invariant forall j :: 0 <= j < i ==> store.symbols[j] != text
      {
        if store.symbols[i] == text {
          return Symbol(i);
        }
        i := i + 1;
      }
      v := store.AllocateSymbol(text);
    }

    /** add_binding_to_frame: two fresh cells pushed on the frame's lists, written through the frame's entry. */
    method AddBindingToFrame(variable: Value, value: Value, frame: Value) returns (r: Result<(), Error>)
      requires Valid()
      modifies store.Repr()
      ensures Valid()
      ensures match Environment.AddBindingToFrame(old(store.Abs()), variable, value, frame)
              case Ok(h) => r.Ok? && store.Abs() == h
              case Err(e) => r == Err(e)
    {
      ghost var h0 := store.Abs();
      var slot := store.GetConsEntry(frame);
      if slot.Err? {
        return Err(slot.error);
      }
      assert slot.value == frame.index;
      ghost var f := h0.conses[frame.index];
      var vars := store.AllocateCons(ConsEntry(variable, store.conses[slot.value].car));
      store.SetConsEntry(slot.value, store.conses[slot.value].(car := vars));
      ghost var h1 := WriteCons(NewCons(h0, ConsEntry(variable, f.car)).heap, frame.index, f.(car := vars));
      assert store.Abs() == h1;
      var vals := store.AllocateCons(ConsEntry(value, store.conses[slot.value].cdr));
      store.SetConsEntry(slot.value, store.conses[slot.value].(cdr := vals));
      return Ok(());
    }

    /** define_variable: overwrite the first frame's binding in place, or add one. */
    method DefineVariable(variable: Value, value: Value, env: Value) returns (r: Result<Value, Error>)
      requires Valid()
      modifies store.Repr()
      ensures Valid()
      ensures Reflects(r, Environment.DefineVariable(old(store.Abs()), variable, value, env), store.Abs())
    {
      var envEntry := store.GetConsEntry(env);
      if envEntry.Err? {
        return Err(envEntry.error);
      }
      var frame := store.conses[envEntry.value].car;
      var found := ScanFrame(variable, frame);
      if found.Err? {
        return Err(found.error);
      }
      if found.value.Some? {
        r := AssignBinding(found.value.value, value);
        return;
      }
      var added := AddBindingToFrame(variable, value, frame);
      assert added.Ok?;
      var ok := InternSymbol(OkText);
      return Ok(ok);
    }

    /** set_variable_value: overwrite the nearest binding in place; none is fatal. */
    method SetVariableValue(variable: Value, value: Value, env: Value) returns (r: Result<Value, Error>)
      requires Valid()
      modifies store.Repr()
      ensures Valid()
      ensures Reflects(r, Environment.SetVariableValue(old(store.Abs()), variable, value, env), store.Abs())
    {
      var found := ScanEnvironment(variable, env);
      if found.Err? {
        return Err(found.error);
      }
      if found.value.None? {
        return Err(Fatal("set variable value on non-existent variable"));
      }
      r := AssignBinding(found.value.value, value);
    }

    /** The write through a found binding's value cell that define and set! share. */
    method AssignBinding(b: Binding, value: Value) returns (r: Result<Value, Error>)
      requires Valid()
      modifies store.Repr()
      ensures Valid()
      ensures Reflects(r, Environment.AssignBinding(old(store.Abs()), b, value), store.Abs())
    {
      var slot := store.GetConsEntry(b.valsCell);
      if slot.Err? {
        return Err(slot.error);
      }
      store.SetConsEntry(slot.value, store.conses[slot.value].(car := value));
      var ok := InternSymbol(OkText);
      return Ok(ok);
    }

    /** lookup_variable_value */
    method LookupVariableValue(name: Value, env: Value) returns (r: Result<Option<Value>, Error>)
      requires Valid()
      ensures r == Environment.LookupVariableValue(store.Abs(), name, env)
    {
      if !name.Symbol? {
        return Err(Fatal("not a symbol"));
      }
      var found := ScanEnvironment(name, env);
      if found.Err? {
        return Err(found.error);
      }
      if found.value.None? {
        return Ok(None);
      }
      return Ok(Some(found.value.value.value));
    }

    /** make_frame */
    method MakeFrame(vars: Value, vals: Value) returns (r: Result<Value, Error>)
      requires Valid()
      modifies store.Repr()
      ensures Valid()
      ensures Reflects(r, Environment.MakeFrame(old(store.Abs()), vars, vals), store.Abs())
    {
      if vars == Null {
        if vals != Null {
          return Err(AssertionFailed("vals == g_scheme_null"));
        }
        var frame := store.AllocateCons(ConsEntry(Null, Null));
        return Ok(frame);
      }
      if !vars.Cons? {
        return Err(AssertionFailed("vars->type == SCHEME_CONS"));
      }
      if !vals.Cons? {
        return Err(AssertionFailed("vals->type == SCHEME_CONS"));
      }
      var same := SameLength(vars, vals);
      if same.Err? {
        return Err(same.error);
      }
      if !same.value {
        return Err(AssertionFailed("internal_length(vars) == internal_length(vals)"));
      }
      var frame := store.AllocateCons(ConsEntry(vars, vals));
      return Ok(frame);
    }

    /** extend_environment */
    method ExtendEnvironment(vars: Value, vals: Value, base: Value) returns (r: Result<Value, Error>)
      requires Valid()
      modifies store.Repr()
      ensures Valid()
      ensures Reflects(r, Environment.ExtendEnvironment(old(store.Abs()), vars, vals, base), store.Abs())
    {
      var same := SameLength(vars, vals);
      if same.Err? {
        return Err(same.error);
      }
      if !same.value {
        return Err(Fatal("Vars and vals do not align"));
      }
      var frame := MakeFrame(vars, vals);
      assert frame.Ok?;
      var env := store.AllocateCons(ConsEntry(frame.value, base));
      return Ok(env);
    }

    /** A fresh cell holding `item`, linked from cell `entry` through its entry; the new cell's index. */
    method AppendCell(entry: nat, item: Value) returns (next: nat)
      requires Valid() && entry < |store.conses|
      modifies store.Repr()
      ensures Valid()
      ensures next == |old(store.conses)|
      ensures store.Abs() == old(store.Abs()).(conses :=
        old(store.conses)[entry := old(store.conses)[entry].(cdr := Cons(next))] + [ConsEntry(item, Null)])
    {
      var cell := store.AllocateCons(ConsEntry(item, Null));
      store.SetConsEntry(entry, store.conses[entry].(cdr := cell));
      next := cell.index;
    }

    /**
      array_to_cons: one fresh cell per object, each linked from the one
      before through its entry, the last one's cdr set to null.
    */
    method ArrayToCons(objects: seq<Value>) returns (r: Result<Value, Error>)
      requires Valid()
      modifies store.Repr()
      ensures Valid()
      ensures Reflects(r, Environment.ArrayToCons(old(store.Abs()), objects), store.Abs())
    {
      if |objects| == 0 {
        return Err(AssertionFailed("num_objects > 0"));
      }
      ghost var h0 := store.Abs();
      ghost var base := |store.conses|;
      var result := store.AllocateCons(ConsEntry(objects[0], Null));
      var entry := result.index;
      var i := 1;
      assert ListCells(base, objects[..1]) == [ConsEntry(objects[0], Null)];
      while i < |objects|
        invariant 1 <= i <= |objects|
        invariant Valid()
        invariant result == Cons(base) && entry == base + i - 1
        invariant store.Abs() == h0.(conses := h0.conses + ListCells(base, objects[..i]))
      {
        ListCellsGrow(base, objects, i);
        entry := AppendCell(entry, objects[i]);
        i := i + 1;
      }
      store.SetConsEntry(entry, store.conses[entry].(cdr := Null));
      assert objects[..i] == objects;
      return Ok(result);
    }

    /**
      eval_with_env: one step at a time, tail evaluations taken up by the
      loop. The answer and the final store are those of Evaluation.Eval.
    */
    method EvalWithEnv(obj: Value, env: Value, fuel: nat) returns (r: Result<Value, Error>)
      requires Valid()
      modifies store.Repr()
      ensures Valid()
      ensures Reflects(r, Evaluation.Eval(old(store.Abs()), falseObj, obj, env, fuel), store.Abs())
      decreases fuel, 8
    {
      ghost var goal := Evaluation.Eval(store.Abs(), falseObj, obj, env, fuel);
      var next := EvalNext(obj, env, fuel);
      while !next.Done?
        invariant Valid()
        invariant Continues(next, goal, store.Abs(), falseObj, fuel + 1)
        decreases if next.Done? then 0 else next.fuel + 1
      {
        if next.EvalNext? {
          next := EvalStep(next.obj, next.env, next.fuel);
        } else {
          next := EvalSequenceStep(next.exps, next.env, next.fuel);
        }
      }
      r := next.result;
    }

    /** eval: evaluation in the global environment. */
    method Eval(obj: Value, fuel: nat) returns (r: Result<Value, Error>)
      requires Valid()
      modifies store.Repr()
      ensures Valid()
      ensures Reflects(r, Evaluation.Eval(old(store.Abs()), falseObj, obj, globalEnv, fuel), store.Abs())
    {
      r := EvalWithEnv(obj, globalEnv, fuel);
    }

    /** One pass through eval_with_env's dispatch. */
    method EvalStep(obj: Value, env: Value, fuel: nat) returns (next: Next)
      requires Valid()
      modifies store.Repr()
      ensures Valid()
      ensures Continues(next, Evaluation.Eval(old(store.Abs()), falseObj, obj, env, fuel), store.Abs(), falseObj, fuel)
      decreases fuel, 7
    {
      if fuel == 0 {
        return Done(Err(OutOfFuel));
      }
      if IsSelfEvaluating(obj) {
        return Done(Ok(obj));
      }
      if obj.Symbol? {
        var value := EvalVariable(obj, env);
        return Done(value);
      }
      next := EvalFormStep(obj, env, fuel - 1);
    }

    /** A variable's value; an unbound one is fatal. */
    method EvalVariable(obj: Value, env: Value) returns (r: Result<Value, Error>)
      requires Valid()
      ensures Reflects(r, Evaluation.EvalVariable(store.Abs(), obj, env), store.Abs())
    {
      var value := LookupVariableValue(obj, env);
      if value.Err? {
        return Err(value.error);
      }
      if value.value.None? {
        return Err(Fatal("Unbound variable"));
      }
      return Ok(value.value.value);
    }

    /** The special forms and application, nested evaluations getting `fuel`. */
    method EvalFormStep(obj: Value, env: Value, fuel: nat) returns (next: Next)
      requires Valid()
      modifies store.Repr()
      ensures Valid()
      ensures Continues(next, EvalForm(old(store.Abs()), falseObj, obj, env, fuel), store.Abs(), falseObj, fuel + 1)
      decreases fuel + 1, 6
    {
      var isDefinition := IsTaggedList(store.Abs(), obj, DefineTag);
      if isDefinition.Err? {
        return Done(Err(isDefinition.error));
      }
      if isDefinition.value {
        var r := EvalDefinition(obj, env, fuel);
        return Done(r);
      }
      var isQuoted := IsTaggedList(store.Abs(), obj, QuoteTag);
      if isQuoted.Err? {
        return Done(Err(isQuoted.error));
      }
      if isQuoted.value {
        return Done(Cadr(store.Abs(), obj));
      }
      var isAssignment := IsTaggedList(store.Abs(), obj, SetTag);
      if isAssignment.Err? {
        return Done(Err(isAssignment.error));
      }
      if isAssignment.value {
        var r := EvalAssignment(obj, env, fuel);
        return Done(r);
      }
      next := EvalFormFromIf(obj, env, fuel);
    }

    /** The rest of the dispatch, from the if test on. */
    method EvalFormFromIf(obj: Value, env: Value, fuel: nat) returns (next: Next)
      requires Valid()
      modifies store.Repr()
      ensures Valid()
      ensures Continues(next, Evaluation.EvalFormFromIf(old(store.Abs()), falseObj, obj, env, fuel), store.Abs(), falseObj, fuel + 1)
      decreases fuel + 1, 5
    {
      var isIf := IsTaggedList(store.Abs(), obj, IfTag);
      if isIf.Err? {
        return Done(Err(isIf.error));
      }
      if isIf.value {
        next := EvalIf(obj, env, fuel);
        return;
      }
      var isLambda := IsTaggedList(store.Abs(), obj, LambdaTag);
      if isLambda.Err? {
        return Done(Err(isLambda.error));
      }
      if isLambda.value {
        var parameters := Cadr(store.Abs(), obj);
        if parameters.Err? {
          return Done(Err(parameters.error));
        }
        var body := Cddr(store.Abs(), obj);
        if body.Err? {
          return Done(Err(body.error));
        }
        var closure := store.AllocateLambda(LambdaEntry(parameters.value, body.value));
        return Done(Ok(closure));
      }
      var isBegin := IsTaggedList(store.Abs(), obj, BeginTag);
      if isBegin.Err? {
        return Done(Err(isBegin.error));
      }
      if isBegin.value {
        var actions := Cdr(store.Abs(), obj);
        assert actions.Ok?;
        return SequenceNext(actions.value, env, fuel);
      }
      if obj.Cons? {
        next := EvalApplication(obj, env, fuel);
        return;
      }
      return Done(Err(Fatal("Unable to evaluate expression")));
    }

    /** (define variable value) */
    method EvalDefinition(obj: Value, env: Value, fuel: nat) returns (r: Result<Value, Error>)
      requires Valid()
      modifies store.Repr()
      ensures Valid()
      ensures Reflects(r, Evaluation.EvalDefinition(old(store.Abs()), falseObj, obj, env, fuel), store.Abs())
      decreases fuel + 1, 1
    {
      var variable := Cadr(store.Abs(), obj);
      if variable.Err? {
        return Err(variable.error);
      }
      var valueExp := Caddr(store.Abs(), obj);
      if valueExp.Err? {
        return Err(valueExp.error);
      }
      var value := EvalWithEnv(valueExp.value, env, fuel);
      if value.Err? {
        return value;
      }
      r := DefineVariable(variable.value, value.value, env);
    }

    /** (set! variable value) */
    method EvalAssignment(obj: Value, env: Value, fuel: nat) returns (r: Result<Value, Error>)
      requires Valid()
      modifies store.Repr()
      ensures Valid()
      ensures Reflects(r, Evaluation.EvalAssignment(old(store.Abs()), falseObj, obj, env, fuel), store.Abs())
      decreases fuel + 1, 1
    {
      var variable := Cadr(store.Abs(), obj);
      if variable.Err? {
        return Err(variable.error);
      }
      var valueExp := Caddr(store.Abs(), obj);
      if valueExp.Err? {
        return Err(valueExp.error);
      }
      var value := EvalWithEnv(valueExp.value, env, fuel);
      if value.Err? {
        return value;
      }
      r := SetVariableValue(variable.value, value.value, env);
    }

    /** (if test consequent alternative): the test nested, the branch left to the loop. */
    method EvalIf(obj: Value, env: Value, fuel: nat) returns (next: Next)
      requires Valid()
      modifies store.Repr()
      ensures Valid()
      ensures Continues(next, Evaluation.EvalIf(old(store.Abs()), falseObj, obj, env, fuel), store.Abs(), falseObj, fuel + 1)
      decreases fuel + 1, 1
    {
      var condition := Cadr(store.Abs(), obj);
      if condition.Err? {
        return Done(Err(condition.error));
      }
      var test := EvalWithEnv(condition.value, env, fuel);
      if test.Err? {
        return Done(test);
      }
      var truth := IsTrue(test.value, falseObj);
      if truth.Err? {
        return Done(Err(truth.error));
      }
      if truth.value {
        var consequent := Caddr(store.Abs(), obj);
        if consequent.Err? {
          return Done(Err(consequent.error));
        }
        return EvalNext(consequent.value, env, fuel);
      }
      var alternative := Cadddr(store.Abs(), obj);
      if alternative.Err? {
        return Done(Err(alternative.error));
      }
      return EvalNext(alternative.value, env, fuel);
    }

    /**
      eval_sequence, one expression at a time: the last one is left to
      the loop, an earlier one is evaluated for effect.
    */
    method EvalSequenceStep(exps: Value, env: Value, fuel: nat) returns (next: Next)
      requires Valid()
      modifies store.Repr()
      ensures Valid()
      ensures Continues(next, Evaluation.EvalSequence(old(store.Abs()), falseObj, exps, env, fuel), store.Abs(), falseObj, fuel)
      decreases fuel, 7
    {
      if fuel == 0 {
        return Done(Err(OutOfFuel));
      }
      var exp := Car(store.Abs(), exps);
      if exp.Err? {
        return Done(Err(exp.error));
      }
      var rest := Cdr(store.Abs(), exps);
      assert rest.Ok?;
      if rest.value == Null {
        return EvalNext(exp.value, env, fuel - 1);
      }
      var first := EvalWithEnv(exp.value, env, fuel - 1);
      if first.Err? {
        return Done(first);
      }
      var following := Cdr(store.Abs(), exps);
      if following.Err? {
        return Done(Err(following.error));
      }
      return SequenceNext(following.value, env, fuel - 1);
    }

    /** One pass of eval_application's operand loop. */
    method EvalOperand(remaining: Value, env: Value, fuel: nat, done: seq<Value>) returns (r: Result<OperandStep, Error>)
      requires Valid() && |done| <= MaxOperands
      modifies store.Repr()
      ensures Valid()
      ensures r == Evaluation.EvalOperand(old(store.Abs()), falseObj, remaining, env, fuel, done)
      ensures r.Ok? ==> store.Abs() == r.value.heap
      decreases fuel + 1, 0
    {
      var unevaled := Car(store.Abs(), remaining);
      if unevaled.Err? {
        return Err(unevaled.error);
      }
      var value := EvalWithEnv(unevaled.value, env, fuel);
      if value.Err? {
        return Err(value.error);
      }
      if |done| == MaxOperands {
        return Err(BufferOverflow);
      }
      var following := Cdr(store.Abs(), remaining);
      if following.Err? {
        return Err(following.error);
      }
      return Ok(OperandStep(store.Abs(), value.value, following.value));
    }

    /**
      The operand loop of eval_application: each operand evaluated into
      the buffer in turn.
    */
    method EvalOperands(operands: Value, env: Value, fuel: nat) returns (r: Result<seq<Value>, Error>)
      requires Valid()
      modifies store.Repr()
      ensures Valid()
      ensures Buffers(r, Evaluation.EvalOperands(old(store.Abs()), falseObj, operands, env, fuel, []), store.Abs())
      decreases fuel + 1, 1
    {
      ghost var goal := Evaluation.EvalOperands(store.Abs(), falseObj, operands, env, fuel, []);
      var evaled: seq<Value> := [];
      var remaining := operands;
      while remaining != Null
        invariant Valid()
        invariant |evaled| <= MaxOperands
        invariant goal == Evaluation.EvalOperands(store.Abs(), falseObj, remaining, env, fuel, evaled)
        decreases MaxOperands - |evaled|
      {
        var step := EvalOperand(remaining, env, fuel, evaled);
        if step.Err? {
          return Err(step.error);
        }
        evaled := evaled + [step.value.value];
        remaining := step.value.rest;
      }
      return Ok(evaled);
    }

    /**
      eval_application: the operator nested; its type checked before the
      operands are gathered.
    */
    method EvalApplication(exp: Value, env: Value, fuel: nat) returns (next: Next)
      requires Valid()
      modifies store.Repr()
      ensures Valid()
      ensures Continues(next, Evaluation.EvalApplication(old(store.Abs()), falseObj, exp, env, fuel), store.Abs(), falseObj, fuel + 1)
      decreases fuel + 1, 4
    {
      var operator := Car(store.Abs(), exp);
      if operator.Err? {
        return Done(Err(operator.error));
      }
      var op := EvalWithEnv(operator.value, env, fuel);
      if op.Err? {
        return Done(op);
      }
      next := ApplyOperator(op.value, exp, env, fuel);
    }

    /** The rest of eval_application: the operands gathered, then the call. */
    method ApplyOperator(op: Value, exp: Value, env: Value, fuel: nat) returns (next: Next)
      requires Valid()
      modifies store.Repr()
      ensures Valid()
      ensures Continues(next, Evaluation.ApplyOperator(old(store.Abs()), falseObj, op, exp, env, fuel), store.Abs(), falseObj, fuel + 1)
      decreases fuel + 1, 3
    {
      if !op.Lambda? && !op.Primitive? {
        return Done(Err(AssertionFailed("op->type == SCHEME_LAMBDA || op->type == SCHEME_PRIMITIVE")));
      }
      var g := GatherOperands(exp, env, fuel);
      if g.Err? {
        return Done(Err(g.error));
      }
      next := ApplyProcedure(op, g.value.args, g.value.vals, env, fuel);
    }

    /** The operands into the buffer, then array_to_cons. */
    method GatherOperands(exp: Value, env: Value, fuel: nat) returns (r: Result<Gathered, Error>)
      requires Valid()
      modifies store.Repr()
      ensures Valid()
      ensures r == Evaluation.GatherOperands(old(store.Abs()), falseObj, exp, env, fuel)
      ensures r.Ok? ==> store.Abs() == r.value.heap
      decreases fuel + 1, 2
    {
      var operands := Cdr(store.Abs(), exp);
      if operands.Err? {
        return Err(operands.error);
      }
      var args := EvalOperands(operands.value, env, fuel);
      if args.Err? {
        return Err(args.error);
      }
      var vals := ArrayToCons(args.value);
      if vals.Err? {
        return Err(vals.error);
      }
      return Ok(Gathered(store.Abs(), args.value, vals.value));
    }

    /** The end of eval_application: the operator applied to the gathered operands. */
    method ApplyProcedure(op: Value, args: seq<Value>, vals: Value, env: Value, fuel: nat) returns (next: Next)
      requires Valid()
      modifies store.Repr()
      ensures Valid()
      ensures Continues(next, Evaluation.ApplyProcedure(old(store.Abs()), falseObj, op, args, vals, env, fuel), store.Abs(), falseObj, fuel + 1)
    {
      if op.Lambda? {
        var entry := LambdaAt(store.Abs(), op);
        if entry.Err? {
          return Done(Err(entry.error));
        }
        var extended := ExtendEnvironment(entry.value.parameters, vals, env);
        if extended.Err? {
          return Done(extended);
        }
        return SequenceNext(entry.value.body, extended.value, fuel);
      }
      var entry := PrimitiveAt(store.Abs(), op);
      if entry.Err? {
        return Done(Err(entry.error));
      }
      return Done(Apply(store.Abs(), entry.value.func, args));
    }
  }
}

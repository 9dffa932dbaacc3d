/**
  What the environment operations promise one another: a variable just
  defined or assigned is found again with its new value, and a frame
  pushed by extend_environment is searched before the environment it
  extends, which it leaves as it was.

  The C code reaches frames and bindings through cons cells it also
  writes, so each law holds only when the cell written is not one of the
  cells the later search reads its way through; the preconditions say
  which cells those are.
*/
module EnvironmentLaws {
  import opened Wrappers
  import opened Errors
  import opened CString
  import opened Memory
  import opened Environment
  import Allocator

  /** `h2` still holds every symbol of `h`, at the same index. */
  predicate SymbolsKept(h: Heap, h2: Heap) {
    |h.symbols| <= |h2.symbols| && h2.symbols[..|h.symbols|] == h.symbols
  }

  /** Cell `c` of `h` is in `h2` with its cdr unchanged. */
  predicate CdrKept(h: Heap, h2: Heap, c: Value) {
    Readable(h, c) && c.index < |h2.conses| && h2.conses[c.index].cdr == h.conses[c.index].cdr
  }

  /** Cell `c` of `h` is in `h2` unchanged. */
  predicate CellKept(h: Heap, h2: Heap, c: Value) {
    Readable(h, c) && c.index < |h2.conses| && h2.conses[c.index] == h.conses[c.index]
  }

  /** Cell `c` of `h` is in `h2` unchanged, except that cell `slot` has car `value`. */
  predicate ValueCellKept(h: Heap, h2: Heap, c: Value, slot: nat, value: Value) {
    && Readable(h, c) && c.index < |h2.conses|
    && h2.conses[c.index] == (if c == Cons(slot) then h.conses[c.index].(car := value) else h.conses[c.index])
  }

  /** A search's answer once value cell `slot` holds `value`. */
  function Updated(r: Result<Option<Binding>, Error>, slot: nat, value: Value): Result<Option<Binding>, Error> {
    match r
    case Ok(Some(b)) => Ok(Some(if b.valsCell == Cons(slot) then b.(value := value) else b))
    case _ => r
  }

  /**
    A walk down a list depends only on the cdrs of its cells: a heap that
    keeps them, and leaves the walk at least as many steps, yields the
    same cells.
  */
  lemma {:induction false} SpineFromKept(h: Heap, h2: Heap, c: Value, k: nat, k2: nat)
    requires k <= |h.conses| && k2 <= |h2.conses| && |h.conses| - k <= |h2.conses| - k2
    requires SpineFrom(h, c, k).Ok?
    requires forall i :: 0 <= i < |SpineFrom(h, c, k).value| ==> CdrKept(h, h2, SpineFrom(h, c, k).value[i])
    ensures SpineFrom(h2, c, k2) == SpineFrom(h, c, k)
    decreases |h.conses| - k
  {
    SpineFromIsChain(h, c, k);
    var cells := SpineFrom(h, c, k).value;
    assert CdrKept(h, h2, cells[0]);
    var e := h.conses[c.index];
    if e.cdr != Null {
      var rest := SpineFrom(h, e.cdr, k + 1).value;
      assert cells == [c] + rest;
      forall i | 0 <= i < |rest|
        ensures CdrKept(h, h2, rest[i])
      {
        assert rest[i] == cells[i + 1];
      }
      SpineFromKept(h, h2, e.cdr, k + 1, k2 + 1);
    }
  }

  /** internal_length's walk, and so the length, is the same in a heap that keeps the list's cdrs. */
  lemma {:induction false} SpineKept(h: Heap, h2: Heap, v: Value)
    requires |h.conses| <= |h2.conses|
    requires Spine(h, v).Ok?
    requires forall i :: 0 <= i < |Spine(h, v).value| ==> CdrKept(h, h2, Spine(h, v).value[i])
    ensures Spine(h2, v) == Spine(h, v)
  {
    if v.Cons? {
      SpineFromKept(h, h2, v, 0, 0);
    }
  }

  /**
    The loop of scan_frame reads only the cars of the cells it passes and
    the symbols they name: in a heap that keeps those, except for one
    value cell given a new value, it finds the same binding, holding the
    new value if that is the cell it found.
  */
  lemma {:induction false} ScanCellsKept(h: Heap, h2: Heap, text: seq<byte>, vs: seq<Value>, ws: seq<Value>, j: nat, slot: nat, value: Value)
    requires |vs| == |ws| && j <= |vs|
    requires ScanCells(h, text, vs, ws, j).Ok?
    requires SymbolsKept(h, h2)
    requires forall i :: j <= i < |vs| && Readable(h, vs[i]) ==> CellKept(h, h2, vs[i])
    requires forall i :: j <= i < |ws| && Readable(h, ws[i]) ==> ValueCellKept(h, h2, ws[i], slot, value)
    ensures ScanCells(h2, text, vs, ws, j) == Updated(ScanCells(h, text, vs, ws, j), slot, value)
    decreases |vs| - j
  {
    if j < |vs| {
      assert CellKept(h, h2, vs[j]);
      assert ValueCellKept(h, h2, ws[j], slot, value);
      var name := h.symbols[h.conses[vs[j].index].car.index];
      assert SymbolAt(h2, h.conses[vs[j].index].car) == Ok(name) by {
        assert h2.symbols[..|h.symbols|][h.conses[vs[j].index].car.index] == name;
      }
      if !StrnEq(text, name, |text|) {
        ScanCellsKept(h, h2, text, vs, ws, j + 1, slot, value);
      }
    }
  }

  /** The cells scan_frame reads in `frame` are kept in `h2`, but for the value cell `slot`. */
  ghost predicate FrameKept(h: Heap, h2: Heap, frame: Value, slot: nat, value: Value) {
    && CellKept(h, h2, frame)
    && var f := h.conses[frame.index];
    && Spine(h, f.car).Ok? && Spine(h, f.cdr).Ok?
    && (forall i :: 0 <= i < |Spine(h, f.car).value| ==> CellKept(h, h2, Spine(h, f.car).value[i]))
    && (forall i :: 0 <= i < |Spine(h, f.cdr).value| ==> ValueCellKept(h, h2, Spine(h, f.cdr).value[i], slot, value))
  }

  /** scan_frame finds the same binding in a heap that keeps the cells it reads. */
  lemma {:induction false} ScanFrameKept(h: Heap, h2: Heap, variable: Value, frame: Value, slot: nat, value: Value)
    requires ScanFrame(h, variable, frame).Ok?
    requires SymbolsKept(h, h2) && |h.conses| <= |h2.conses|
    requires FrameKept(h, h2, frame, slot, value)
    ensures ScanFrame(h2, variable, frame) == Updated(ScanFrame(h, variable, frame), slot, value)
  {
    var f := h.conses[frame.index];
    var vs := Spine(h, f.car).value;
    var ws := Spine(h, f.cdr).value;
    assert SymbolAt(h2, variable) == SymbolAt(h, variable) by {
      assert h2.symbols[..|h.symbols|][variable.index] == h.symbols[variable.index];
    }
    SpineKept(h, h2, f.car);
    SpineKept(h, h2, f.cdr);
    ScanCellsKept(h, h2, h.symbols[variable.index], vs, ws, 0, slot, value);
  }

  /** The cells scan_environment reads from env cell `env` on are kept in `h2`, but for the value cell `slot`. */
  ghost predicate EnvKept(h: Heap, h2: Heap, variable: Value, env: Value, k: nat, slot: nat, value: Value)
    requires k <= |h.conses|
    decreases |h.conses| - k
  {
    env == Null ||
    (&& CellKept(h, h2, env) && k < |h.conses|
     && FrameKept(h, h2, h.conses[env.index].car, slot, value)
     && (ScanFrame(h, variable, h.conses[env.index].car) == Ok(None) ==>
           EnvKept(h, h2, variable, h.conses[env.index].cdr, k + 1, slot, value)))
  }

  /** What the search from env cell `env` needs of `h2` to find in it what it finds in `h`. */
  ghost predicate KeptFrom(h: Heap, h2: Heap, variable: Value, env: Value, k: nat, k2: nat, slot: nat, value: Value) {
    && k <= |h.conses| && k2 <= |h2.conses| && |h.conses| - k <= |h2.conses| - k2
    && ScanEnvFrom(h, variable, env, k).Ok?
    && SymbolsKept(h, h2) && |h.conses| <= |h2.conses|
    && EnvKept(h, h2, variable, env, k, slot, value)
  }

  /**
    One env cell of scan_environment: either its frame holds the answer in
    both heaps (`more` false), or both searches go on to the next env cell
    (`more` true).
  */
  lemma {:induction false} EnvCellKept(h: Heap, h2: Heap, variable: Value, env: Value, k: nat, k2: nat, slot: nat, value: Value)
    returns (more: bool, next: Value)
    requires env != Null && KeptFrom(h, h2, variable, env, k, k2, slot, value)
    ensures !more ==> ScanEnvFrom(h2, variable, env, k2) == Updated(ScanEnvFrom(h, variable, env, k), slot, value)
    ensures more ==>
      && k < |h.conses| && k2 < |h2.conses|
      && KeptFrom(h, h2, variable, next, k + 1, k2 + 1, slot, value)
      && ScanEnvFrom(h, variable, env, k) == ScanEnvFrom(h, variable, next, k + 1)
      && ScanEnvFrom(h2, variable, env, k2) == ScanEnvFrom(h2, variable, next, k2 + 1)
  {
    var e := h.conses[env.index];
    assert ConsAt(h2, env) == Ok(e);
    ScanFrameKept(h, h2, variable, e.car, slot, value);
    more := ScanFrame(h, variable, e.car).value.None?;
    next := e.cdr;
  }

  /** scan_environment finds the same binding in a heap that keeps the cells it reads. */
  lemma {:induction false} ScanEnvFromKept(h: Heap, h2: Heap, variable: Value, env: Value, k: nat, k2: nat, slot: nat, value: Value)
    requires KeptFrom(h, h2, variable, env, k, k2, slot, value)
    ensures ScanEnvFrom(h2, variable, env, k2) == Updated(ScanEnvFrom(h, variable, env, k), slot, value)
    decreases |h.conses| - k
  {
    if env == Null {
      assert ScanEnvFrom(h2, variable, env, k2) == Ok(None) == ScanEnvFrom(h, variable, env, k);
    } else {
      var more, next := EnvCellKept(h, h2, variable, env, k, k2, slot, value);
      if more {
        ScanEnvFromKept(h, h2, variable, next, k + 1, k2 + 1, slot, value);
      }
    }
  }

  /**
    Cons `slot` is none of the cells the search for `variable` from env
    cell `env` reads its way through: no env cell, no frame it searches,
    no variable cell of such a frame. Value cells may be `slot`.
  */
  ghost predicate OffStructure(h: Heap, variable: Value, env: Value, k: nat, slot: nat)
    requires k <= |h.conses|
    decreases |h.conses| - k
  {
    env == Null || !Readable(h, env) || k == |h.conses| ||
    (var frame := h.conses[env.index].car;
     && env != Cons(slot) && frame != Cons(slot)
     && (Readable(h, frame) && Spine(h, h.conses[frame.index].car).Ok? ==>
           Cons(slot) !in Spine(h, h.conses[frame.index].car).value)
     && (ScanFrame(h, variable, frame) == Ok(None) ==>
           OffStructure(h, variable, h.conses[env.index].cdr, k + 1, slot)))
  }

  /** `h2` is `h` with the car of cell `slot`, off the search's structure, set to `value`. */
  ghost predicate WrittenOff(h: Heap, h2: Heap, variable: Value, env: Value, k: nat, slot: nat, value: Value) {
    && k <= |h.conses| && slot < |h.conses|
    && h2.conses == h.conses[slot := h.conses[slot].(car := value)]
    && ScanEnvFrom(h, variable, env, k).Ok?
    && OffStructure(h, variable, env, k, slot)
  }

  /** One env cell: its frame's cells are kept, and the search goes on to `next` exactly when `more`. */
  lemma {:induction false} OffCellKept(h: Heap, h2: Heap, variable: Value, env: Value, k: nat, slot: nat, value: Value)
    returns (more: bool, next: Value)
    requires env != Null && WrittenOff(h, h2, variable, env, k, slot, value)
    ensures CellKept(h, h2, env) && k < |h.conses| && next == h.conses[env.index].cdr
    ensures FrameKept(h, h2, h.conses[env.index].car, slot, value)
    ensures more <==> ScanFrame(h, variable, h.conses[env.index].car) == Ok(None)
    ensures more ==> WrittenOff(h, h2, variable, next, k + 1, slot, value)
  {
    var e := h.conses[env.index];
    var frame := e.car;
    var f := h.conses[frame.index];
    SpineIsChain(h, f.car);
    SpineIsChain(h, f.cdr);
    var vs := Spine(h, f.car).value;
    forall i | 0 <= i < |vs|
      ensures CellKept(h, h2, vs[i])
    {
      assert vs[i] != Cons(slot);
    }
    more := ScanFrame(h, variable, frame) == Ok(None);
    next := e.cdr;
  }

  /** A write of a car off the searched structure keeps every cell the search reads. */
  lemma {:induction false} OffStructureKept(h: Heap, h2: Heap, variable: Value, env: Value, k: nat, slot: nat, value: Value)
    requires WrittenOff(h, h2, variable, env, k, slot, value)
    ensures EnvKept(h, h2, variable, env, k, slot, value)
    decreases |h.conses| - k
  {
    if env != Null {
      var more, next := OffCellKept(h, h2, variable, env, k, slot, value);
      if more {
        OffStructureKept(h, h2, variable, next, k + 1, slot, value);
      }
    }
  }

  /**
    The write of set! and of define on a found binding: afterwards any
    search that does not read its way through the written cell finds the
    binding it found before, with the new value if it is that binding.
  */
  lemma {:induction false} AssignedScan(h: Heap, b: Binding, value: Value, other: Value, env: Value)
    requires AssignBinding(h, b, value).Ok?
    requires ScanEnvironment(h, other, env).Ok?
    requires OffStructure(h, other, env, 0, b.valsCell.index)
    ensures ScanEnvironment(AssignBinding(h, b, value).value.heap, other, env)
         == Updated(ScanEnvironment(h, other, env), b.valsCell.index, value)
  {
    var h2 := AssignBinding(h, b, value).value.heap;
    var slot := b.valsCell.index;
    OffStructureKept(h, h2, other, env, 0, slot, value);
    assert KeptFrom(h, h2, other, env, 0, 0, slot, value);
    ScanEnvFromKept(h, h2, other, env, 0, 0, slot, value);
  }

  /**
    set! then lookup: once set_variable_value has stored `value` in the
    binding it found, looking the variable up answers `value`, provided
    the binding's value cell is not a cell the lookup reads its way through.
  */
  lemma {:induction false} SetThenLookup(h: Heap, variable: Value, value: Value, env: Value)
    requires ScanEnvironment(h, variable, env).Ok? && ScanEnvironment(h, variable, env).value.Some?
    requires ScanEnvironment(h, variable, env).value.value.valsCell.Cons?
    requires OffStructure(h, variable, env, 0, ScanEnvironment(h, variable, env).value.value.valsCell.index)
    ensures SetVariableValue(h, variable, value, env).Ok?
    ensures var o := SetVariableValue(h, variable, value, env).value;
      && LookupVariableValue(o.heap, variable, env) == Ok(Some(value))
      && o.value.Symbol? && o.heap.symbols[o.value.index] == OkText
  {
    var b := ScanEnvironment(h, variable, env).value.value;
    ScanEnvFromFound(h, variable, env, 0);
    AssignedScan(h, b, value, variable, env);
  }

  /**
    The first frame of `env` is laid out apart from the rest: the env
    cell, the frame cell, the variable cells and the value cells are
    distinct cells, and both lists are null-terminated.
  */
  ghost predicate FirstFrameSeparated(h: Heap, env: Value) {
    && Readable(h, env)
    && var frame := h.conses[env.index].car;
    && Readable(h, frame) && frame != env
    && var f := h.conses[frame.index];
    && Spine(h, f.car).Ok? && Spine(h, f.cdr).Ok?
    && env !in Spine(h, f.car).value && env !in Spine(h, f.cdr).value
    && frame !in Spine(h, f.car).value && frame !in Spine(h, f.cdr).value
    && (forall i, j :: 0 <= i < |Spine(h, f.car).value| && 0 <= j < |Spine(h, f.cdr).value| ==>
          Spine(h, f.car).value[i] != Spine(h, f.cdr).value[j])
  }

  /** A new cell in front of a list: the walk from it is the cell, then the list's cells. */
  lemma {:induction false} SpineConsed(h: Heap, h2: Heap, c: Value, rest: Value)
    requires Readable(h2, c) && h2.conses[c.index].cdr == rest && |h.conses| < |h2.conses|
    requires Spine(h, rest).Ok?
    requires forall i :: 0 <= i < |Spine(h, rest).value| ==> CdrKept(h, h2, Spine(h, rest).value[i])
    ensures Spine(h2, c) == Ok([c] + Spine(h, rest).value)
  {
    SpineIsChain(h, rest);
    if rest == Null {
      assert Spine(h, rest).value == [] && [c] + [] == [c];
      assert ConsAt(h2, c) == Ok(h2.conses[c.index]) && |h2.conses| != 0;
      assert SpineFrom(h2, c, 0) == Ok([c]);
    } else {
      assert rest.Cons?;
      SpineFromKept(h, h2, rest, 0, 1);
      assert SpineFrom(h2, c, 0) == Ok([c] + SpineFrom(h2, rest, 1).value);
    }
  }

  /** define on a variable its first frame already binds: the value lands in that binding. */
  lemma {:induction false} DefineFoundThenLookup(h: Heap, variable: Value, value: Value, env: Value)
    requires DefineVariable(h, variable, value, env).Ok?
    requires FirstFrameSeparated(h, env)
    requires ScanFrame(h, variable, h.conses[env.index].car).value.Some?
    ensures var o := DefineVariable(h, variable, value, env).value;
      LookupVariableValue(o.heap, variable, env) == Ok(Some(value))
  {
    var frame := h.conses[env.index].car;
    var b := ScanFrame(h, variable, frame).value.value;
    ScanFrameFound(h, variable, frame);
    var f := h.conses[frame.index];
    assert b.valsCell != env && b.valsCell != frame;
    assert b.valsCell !in Spine(h, f.car).value;
    assert OffStructure(h, variable, env, 0, b.valsCell.index);
    assert ScanEnvironment(h, variable, env) == Ok(Some(b));
    AssignedScan(h, b, value, variable, env);
  }

  /**
    add_binding_to_frame puts the new binding first: scan_frame for the
    variable, in any heap that keeps those cells and symbols, finds the two
    fresh cells and the value.
  */
  lemma {:induction false} AddedBindingFirst(h: Heap, h3: Heap, variable: Value, value: Value, frame: Value)
    requires Readable(h, frame) && SymbolAt(h, variable).Ok? && |h.conses| + 2 <= Allocator.TwoTo63
    requires var f := h.conses[frame.index];
      && Spine(h, f.car).Ok? && Spine(h, f.cdr).Ok? && |Spine(h, f.car).value| == |Spine(h, f.cdr).value|
      && frame !in Spine(h, f.car).value && frame !in Spine(h, f.cdr).value
    requires h3.conses == AddBindingToFrame(h, variable, value, frame).value.conses && SymbolsKept(h, h3)
    ensures ScanFrame(h3, variable, frame) == Ok(Some(Binding(Cons(|h.conses|), Cons(|h.conses| + 1), value)))
  {
    var n := |h.conses|;
    var f := h.conses[frame.index];
    var vs := Spine(h, f.car).value;
    var ws := Spine(h, f.cdr).value;
    SpineIsChain(h, f.car);
    SpineIsChain(h, f.cdr);
    var text := h.symbols[variable.index];
    assert SymbolAt(h3, variable) == Ok(text) by {
      assert h3.symbols[..|h.symbols|][variable.index] == text;
    }
    assert ConsAt(h3, frame) == Ok(ConsEntry(Cons(n), Cons(n + 1)));
    forall i | 0 <= i < |vs|
      ensures CdrKept(h, h3, vs[i])
    {
      assert vs[i] != frame;
    }
    forall i | 0 <= i < |ws|
      ensures CdrKept(h, h3, ws[i])
    {
      assert ws[i] != frame;
    }
    SpineConsed(h, h3, Cons(n), f.car);
    SpineConsed(h, h3, Cons(n + 1), f.cdr);
    StrnEqSelf(text, |text|);
    assert ScanCells(h3, text, [Cons(n)] + vs, [Cons(n + 1)] + ws, 0) == Ok(Some(Binding(Cons(n), Cons(n + 1), value)));
  }

  /** define on a variable its first frame does not bind: the new binding is the first the lookup meets. */
  lemma {:induction false} DefineAddedThenLookup(h: Heap, variable: Value, value: Value, env: Value)
    requires DefineVariable(h, variable, value, env).Ok?
    requires FirstFrameSeparated(h, env) && |h.conses| + 2 <= Allocator.TwoTo63
    requires ScanFrame(h, variable, h.conses[env.index].car).value.None?
    ensures var o := DefineVariable(h, variable, value, env).value;
      LookupVariableValue(o.heap, variable, env) == Ok(Some(value))
  {
    var frame := h.conses[env.index].car;
    var h1 := AddBindingToFrame(h, variable, value, frame).value;
    var h3 := Intern(h1, OkText).heap;
    assert h3 == DefineVariable(h, variable, value, env).value.heap;
    assert ConsAt(h3, env) == Ok(h.conses[env.index]);
    AddedBindingFirst(h, h3, variable, value, frame);
  }

  /**
    define then lookup: after define_variable, looking the variable up
    answers the value just defined, whether define overwrote a binding of
    the first frame or added one; define answers the symbol ok.
  */
  lemma {:induction false} DefineThenLookup(h: Heap, variable: Value, value: Value, env: Value)
    requires DefineVariable(h, variable, value, env).Ok?
    requires FirstFrameSeparated(h, env) && |h.conses| + 2 <= Allocator.TwoTo63
    ensures var o := DefineVariable(h, variable, value, env).value;
      && LookupVariableValue(o.heap, variable, env) == Ok(Some(value))
      && o.value.Symbol? && o.heap.symbols[o.value.index] == OkText
  {
    if ScanFrame(h, variable, h.conses[env.index].car).value.Some? {
      DefineFoundThenLookup(h, variable, value, env);
    } else {
      DefineAddedThenLookup(h, variable, value, env);
    }
  }

  /** `h2` is `h` with cells appended, from env cell `env` on where the search in `h` succeeds. */
  ghost predicate GrownFrom(h: Heap, h2: Heap, variable: Value, env: Value, k: nat) {
    && k <= |h.conses| && |h.conses| <= |h2.conses| && h2.conses[..|h.conses|] == h.conses
    && ScanEnvFrom(h, variable, env, k).Ok?
  }

  /** One env cell: appending cells keeps every cell of its frame. */
  lemma {:induction false} GrownCellKept(h: Heap, h2: Heap, variable: Value, env: Value, k: nat) returns (more: bool, next: Value)
    requires env != Null && GrownFrom(h, h2, variable, env, k)
    ensures CellKept(h, h2, env) && k < |h.conses| && next == h.conses[env.index].cdr
    ensures FrameKept(h, h2, h.conses[env.index].car, |h.conses|, Null)
    ensures more <==> ScanFrame(h, variable, h.conses[env.index].car) == Ok(None)
    ensures more ==> GrownFrom(h, h2, variable, next, k + 1)
  {
    forall c | Readable(h, c)
      ensures CellKept(h, h2, c) && ValueCellKept(h, h2, c, |h.conses|, Null)
    {
      assert h2.conses[..|h.conses|][c.index] == h.conses[c.index];
    }
    var e := h.conses[env.index];
    var f := h.conses[e.car.index];
    SpineIsChain(h, f.car);
    SpineIsChain(h, f.cdr);
    more := ScanFrame(h, variable, e.car) == Ok(None);
    next := e.cdr;
  }

  /** Appending cells keeps every cell a successful search reads. */
  lemma {:induction false} GrownEnvKept(h: Heap, h2: Heap, variable: Value, env: Value, k: nat)
    requires GrownFrom(h, h2, variable, env, k)
    ensures EnvKept(h, h2, variable, env, k, |h.conses|, Null)
    decreases |h.conses| - k
  {
    if env != Null {
      var more, next := GrownCellKept(h, h2, variable, env, k);
      if more {
        GrownEnvKept(h, h2, variable, next, k + 1);
      }
    }
  }

  /**
    extend then lookup: the frame extend_environment pushes is searched
    first; a variable it does not bind is looked up in the environment it
    extends, with the answer that lookup gave before.
  */
  lemma {:induction false} ExtendThenLookup(h: Heap, variable: Value, vars: Value, vals: Value, base: Value)
    requires ExtendEnvironment(h, vars, vals, base).Ok? && |h.conses| + 2 <= Allocator.TwoTo63
    ensures var o := ExtendEnvironment(h, vars, vals, base).value;
      var frame := Cons(|h.conses|);
      && o.value == Cons(|h.conses| + 1)
      && (ScanFrame(o.heap, variable, frame).Ok? && ScanFrame(o.heap, variable, frame).value.Some? && variable.Symbol? ==>
            LookupVariableValue(o.heap, variable, o.value) == Ok(Some(ScanFrame(o.heap, variable, frame).value.value.value)))
      && (ScanFrame(o.heap, variable, frame) == Ok(None) && ScanEnvironment(h, variable, base).Ok? ==>
            LookupVariableValue(o.heap, variable, o.value) == LookupVariableValue(h, variable, base))
  {
    var o := ExtendEnvironment(h, vars, vals, base).value;
    var n := |h.conses|;
    var h2 := o.heap;
    assert h2.conses[..n] == h.conses && |h2.conses| == n + 2 && h2.symbols == h.symbols;
    assert ConsAt(h2, o.value) == Ok(ConsEntry(Cons(n), base));
    if ScanFrame(h2, variable, Cons(n)) == Ok(None) && ScanEnvironment(h, variable, base).Ok? {
      assert ScanEnvFrom(h2, variable, o.value, 0) == ScanEnvFrom(h2, variable, base, 1);
      GrownScan(h, h2, variable, base);
    }
  }

  /** Past the frames it adds, a heap grown by appending answers the searches of the old one. */
  lemma {:induction false} GrownScan(h: Heap, h2: Heap, variable: Value, env: Value)
    requires |h2.conses| > |h.conses| && h2.conses[..|h.conses|] == h.conses && h2.symbols == h.symbols
    requires ScanEnvironment(h, variable, env).Ok?
    ensures ScanEnvFrom(h2, variable, env, 1) == ScanEnvironment(h, variable, env)
  {
    var n := |h.conses|;
    GrownEnvKept(h, h2, variable, env, 0);
    assert KeptFrom(h, h2, variable, env, 0, 1, n, Null);
    ScanEnvFromKept(h, h2, variable, env, 0, 1, n, Null);
    var r := ScanEnvFrom(h, variable, env, 0);
    ScanEnvFromFound(h, variable, env, 0);
    if r.value.Some? {
      assert r.value.value.valsCell != Cons(n);
    }
    assert Updated(r, n, Null) == r;
  }

  /** The cells `n`, `n + 1`, ... of a fresh list of `count` elements. */
  function FreshCells(n: nat, count: nat): (cells: seq<Value>)
    ensures |cells| == count
    ensures forall i :: 0 <= i < count ==> cells[i] == Cons(n + i)
  {
    seq(count, i requires 0 <= i < count => Cons(n + i))
  }

  /** The cells ListCells lays out from index `n` on are chained in order. */
  lemma {:induction false} ListCellsChain(h: Heap, n: nat, objects: seq<Value>)
    requires n + |objects| == |h.conses| <= Allocator.TwoTo63
    requires h.conses[n..] == ListCells(n, objects)
    ensures Chain(h, FreshCells(n, |objects|))
    ensures forall i :: 0 <= i < |objects| ==> h.conses[n + i].car == objects[i]
  {
    forall i | 0 <= i < |objects|
      ensures h.conses[n + i] == ListCells(n, objects)[i]
    {
      assert h.conses[n + i] == h.conses[n..][i];
    }
  }

  /** The cells ListCells lays out from index `n` on form a list of the objects. */
  lemma {:induction false} ListCellsElements(h: Heap, n: nat, objects: seq<Value>)
    requires |objects| > 0 && n + |objects| == |h.conses| <= Allocator.TwoTo63
    requires h.conses[n..] == ListCells(n, objects)
    ensures ListElements(h, Cons(n)) == Ok(objects)
  {
    var cells := FreshCells(n, |objects|);
    ListCellsChain(h, n, objects);
    SpineFindsChain(h, Cons(n), cells);
    assert Elements(h, cells) == objects;
  }

  /**
    array_to_cons builds a list whose elements are the objects, in order,
    out of fresh cells; an empty array is refused.
  */
  lemma {:induction false} ArrayToConsElements(h: Heap, objects: seq<Value>)
    requires |h.conses| + |objects| <= Allocator.TwoTo63
    ensures var r := ArrayToCons(h, objects);
      && (r.Ok? <==> |objects| > 0)
      && (r.Ok? ==>
            && r.value.heap.conses[..|h.conses|] == h.conses
            && ListElements(r.value.heap, r.value.value) == Ok(objects))
  {
    var r := ArrayToCons(h, objects);
    if r.Ok? {
      var h2 := r.value.heap;
      assert h2.conses[..|h.conses|] == h.conses;
      assert h2.conses[|h.conses|..] == ListCells(|h.conses|, objects);
      ListCellsElements(h2, |h.conses|, objects);
    }
  }

  /*
    scan_frame compares names with strncmp bounded by the length of the
    searched name, so a search for a name finds a binding of any longer
    name that begins with it. The heap below holds one environment
    (cell 0) whose frame (cell 1) binds `foobar` (symbol 0) to 1; symbol 1
    is `foo`.
  */

  const FooText: seq<byte> := [0x66, 0x6f, 0x6f]
  const FoobarText: seq<byte> := [0x66, 0x6f, 0x6f, 0x62, 0x61, 0x72]

  function PrefixHeap(): Heap {
    Heap(
      [ConsEntry(Cons(1), Null), ConsEntry(Cons(2), Cons(3)), ConsEntry(Symbol(0), Null), ConsEntry(Number(1), Null)],
      [], [FoobarText, FooText], [], [])
  }

  /** Looking up `foo` answers the value bound to `foobar`. */
  lemma {:induction false} ShorterNameFindsLongerBinding()
    ensures LookupVariableValue(PrefixHeap(), Symbol(1), Cons(0)) == Ok(Some(Number(1)))
  {
    var h := PrefixHeap();
    assert Spine(h, Cons(2)) == Ok([Cons(2)]);
    assert Spine(h, Cons(3)) == Ok([Cons(3)]);
    assert StrnEq(FooText, FoobarText, 3) by {
      StrnEqIsPrefix(FooText, FoobarText);
      assert FooText == FoobarText[..3];
    }
    assert ScanFrame(h, Symbol(1), Cons(1)) == Ok(Some(Binding(Cons(2), Cons(3), Number(1))));
  }

  /** Defining `foo` overwrites the value of `foobar` instead of adding a binding. */
  lemma {:induction false} DefineShorterNameOverwrites()
    ensures var r := DefineVariable(PrefixHeap(), Symbol(1), Number(2), Cons(0));
      r.Ok? && r.value.heap.conses == PrefixHeap().conses[3 := ConsEntry(Number(2), Null)]
  {
    ShorterNameFindsLongerBinding();
  }
}

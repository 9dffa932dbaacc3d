/**
  Lists, frames and environments over the heap.

  A list is a chain of conses ending in the null value. A frame is a cons
  whose car is the list of variables and whose cdr is the parallel list of
  values; an environment is a list of frames, innermost first, ending in
  the empty environment (the null value). These functions state what the
  interpreter's environment operations compute: the heap afterwards and
  the value they answer, or the failure that aborts the C program.

  Walks that the C code would repeat forever on a cyclic structure are
  cut off as `Diverges` once they have visited more cells than the heap
  holds, which only a cycle allows.
*/
module Environment {
  import opened Wrappers
  import opened Errors
  import opened CString
  import opened Memory
  import Allocator

  /** "ok", the answer of define and set!. */
  const OkText: seq<byte> := [0x6F, 0x6B]

  /** car: the first half of a cons. */
  function Car(h: Heap, v: Value): (r: Result<Value, Error>)
    ensures r.Ok? <==> ConsAt(h, v).Ok?
    ensures r.Ok? ==> r.value == h.conses[v.index].car
  {
    var e :- ConsAt(h, v);
    Ok(e.car)
  }

  /** cdr: the second half of a cons. */
  function Cdr(h: Heap, v: Value): (r: Result<Value, Error>)
    ensures r.Ok? <==> ConsAt(h, v).Ok?
    ensures r.Ok? ==> r.value == h.conses[v.index].cdr
  {
    var e :- ConsAt(h, v);
    Ok(e.cdr)
  }

  /** `cells` are readable conses, each one's cdr the next, the last one's cdr null. */
  predicate Chain(h: Heap, cells: seq<Value>) {
    && (forall i :: 0 <= i < |cells| ==> cells[i].Cons? && cells[i].index < |h.conses| && cells[i].index < Allocator.TwoTo63)
    && (forall i :: 0 <= i < |cells| - 1 ==> h.conses[cells[i].index].cdr == cells[i + 1])
    && (|cells| > 0 ==> h.conses[cells[|cells| - 1].index].cdr == Null)
  }

  /** The cells of the list that continues at cons `c`, `k` cells having come before it. */
  function SpineFrom(h: Heap, c: Value, k: nat): Result<seq<Value>, Error>
    requires k <= |h.conses|
    decreases |h.conses| - k
  {
    var e :- ConsAt(h, c);
    if k == |h.conses| then Err(Diverges)
    else if e.cdr == Null then Ok([c])
    else if !e.cdr.Cons? then Err(Fatal("Length on something not a null-terminated list"))
    else
      var rest :- SpineFrom(h, e.cdr, k + 1);
      Ok([c] + rest)
  }

  /** The cells of the list `v`, in order: what internal_length walks. */
  function Spine(h: Heap, v: Value): Result<seq<Value>, Error> {
    if v == Null then Ok([])
    else if !v.Cons? then Err(Fatal("length on something not a cons"))
    else SpineFrom(h, v, 0)
  }

  /** internal_length: the number of cells of a null-terminated list. */
  function Length(h: Heap, v: Value): Result<nat, Error> {
    var cells :- Spine(h, v);
    Ok(|cells|)
  }

  /** Whether two lists have the same internal_length. */
  function SameLength(h: Heap, a: Value, b: Value): (r: Result<bool, Error>)
    ensures r.Ok? ==> Spine(h, a).Ok? && Spine(h, b).Ok?
  {
    var n1 :- Length(h, a);
    var n2 :- Length(h, b);
    Ok(n1 == n2)
  }

  /**
    What the walk from `c` finds is a null-terminated chain of readable
    cells starting at `c`, no longer than the cells not yet visited.
  */
  lemma {:induction false} SpineFromIsChain(h: Heap, c: Value, k: nat)
    requires k <= |h.conses|
    decreases |h.conses| - k
    ensures var r := SpineFrom(h, c, k);
      r.Ok? ==> |r.value| >= 1 && r.value[0] == c && k + |r.value| <= |h.conses| && Chain(h, r.value)
  {
    var r := SpineFrom(h, c, k);
    if r.Ok? && h.conses[c.index].cdr != Null {
      var e := h.conses[c.index];
      SpineFromIsChain(h, e.cdr, k + 1);
      var rest := SpineFrom(h, e.cdr, k + 1).value;
      assert r.value == [c] + rest;
    }
  }

  /**
    internal_length's walk: the cells of a null-terminated list, none for
    the null value; any other value that is not a cons is fatal.
  */
  lemma {:induction false} SpineIsChain(h: Heap, v: Value)
    ensures var r := Spine(h, v);
      && (r.Ok? ==> Chain(h, r.value) && |r.value| <= |h.conses|)
      && (r.Ok? ==> (|r.value| == 0 <==> v == Null))
      && (r.Ok? && v != Null ==> r.value[0] == v)
      && (!v.Null? && !v.Cons? ==> r == Err(Fatal("length on something not a cons")))
  {
    if v.Cons? {
      SpineFromIsChain(h, v, 0);
    }
  }

  /** The cars of the cells of a chain: the list's elements. */
  function Elements(h: Heap, cells: seq<Value>): (r: seq<Value>)
    requires forall i :: 0 <= i < |cells| ==> cells[i].Cons? && cells[i].index < |h.conses|
    ensures |r| == |cells|
    ensures forall i :: 0 <= i < |cells| ==> r[i] == h.conses[cells[i].index].car
  {
    if |cells| == 0 then []
    else
      [h.conses[cells[0].index].car] + Elements(h, cells[1..])
  }

  /** The elements of the list `v`. */
  function ListElements(h: Heap, v: Value): Result<seq<Value>, Error> {
    var cells :- Spine(h, v);
    SpineIsChain(h, v);
    Ok(Elements(h, cells))
  }

  /**
    The cells of a list are pairwise distinct: following cdrs from a cell
    seen twice would never reach the null at the end.
  */
  lemma {:induction false} ChainDistinct(h: Heap, cells: seq<Value>, i: nat, j: nat)
    requires Chain(h, cells)
    requires i < j < |cells|
    ensures cells[i] != cells[j]
    decreases |cells| - j
  {
    if cells[i] == cells[j] {
      assert h.conses[cells[i].index].cdr == cells[i + 1];
      if j < |cells| - 1 {
        assert h.conses[cells[j].index].cdr == cells[j + 1];
        ChainDistinct(h, cells, i + 1, j + 1);
      }
      assert false;
    }
  }

  /** A chain whose cells are all readable cannot be longer than the heap. */
  lemma {:induction false} ChainFitsHeap(h: Heap, cells: seq<Value>)
    requires Chain(h, cells)
    ensures |cells| <= |h.conses|
  {
    var indices := set i | 0 <= i < |cells| :: cells[i].index;
    IndicesCard(h, cells, |cells|);
    BoundedSetCard(indices, |h.conses|);
  }

  lemma {:induction false} BoundedSetCard(s: set<nat>, n: nat)
    requires forall x :: x in s ==> x < n
    ensures |s| <= n
  {
    if n == 0 {
      assert forall x :: x !in s;
    } else {
      BoundedSetCard(s - {n - 1}, n - 1);
    }
  }

  lemma {:induction false} IndicesCard(h: Heap, cells: seq<Value>, m: nat)
    requires Chain(h, cells) && m <= |cells|
    ensures |set i | 0 <= i < m :: cells[i].index| == m
  {
    if m > 0 {
      IndicesCard(h, cells, m - 1);
      LastIndexIsNew(h, cells, m);
      IndicesGrow(cells, m);
    }
  }

  /** The `m`-th cell of a chain is not among the cells before it. */
  lemma {:induction false} LastIndexIsNew(h: Heap, cells: seq<Value>, m: nat)
    requires Chain(h, cells) && 0 < m <= |cells|
    ensures forall i :: 0 <= i < m - 1 ==> cells[i].index != cells[m - 1].index
  {
    forall i | 0 <= i < m - 1
      ensures cells[i].index != cells[m - 1].index
    {
      ChainDistinct(h, cells, i, m - 1);
    }
  }

  lemma {:induction false} IndicesGrow(cells: seq<Value>, m: nat)
    requires 0 < m <= |cells| && forall i :: 0 <= i < m ==> cells[i].Cons?
    requires forall i :: 0 <= i < m - 1 ==> cells[i].index != cells[m - 1].index
    ensures |set i | 0 <= i < m :: cells[i].index| == |set i | 0 <= i < m - 1 :: cells[i].index| + 1
  {
    var prev := set i | 0 <= i < m - 1 :: cells[i].index;
    var cur := set i | 0 <= i < m :: cells[i].index;
    assert cur == prev + {cells[m - 1].index};
  }

  /**
    The walk of internal_length is complete: every chain starting at `v`
    is what Spine finds, so Spine fails only where no such chain exists.
  */
  lemma {:induction false} SpineFromFindsChain(h: Heap, cells: seq<Value>, j: nat)
    requires Chain(h, cells) && j < |cells| <= |h.conses|
    ensures SpineFrom(h, cells[j], j) == Ok(cells[j..])
    decreases |cells| - j
  {
    if j + 1 < |cells| {
      assert h.conses[cells[j].index].cdr == cells[j + 1];
      SpineFromFindsChain(h, cells, j + 1);
      assert cells[j..] == [cells[j]] + cells[j + 1..];
    } else {
      assert cells[j..] == [cells[j]];
    }
  }

  lemma {:induction false} SpineFindsChain(h: Heap, v: Value, cells: seq<Value>)
    requires Chain(h, cells)
    requires if v == Null then cells == [] else |cells| > 0 && cells[0] == v
    ensures Spine(h, v) == Ok(cells)
  {
    if v != Null {
      ChainFitsHeap(h, cells);
      SpineFromFindsChain(h, cells, 0);
      assert cells[0..] == cells;
    }
  }

  /** A binding found by a frame scan: the variable and value cells at its position, and the value. */
  datatype Binding = Binding(varsCell: Value, valsCell: Value, value: Value)

  /** Whether the variable named in cell `cell` answers a search for `text` (the strncmp of scan_frame). */
  function NameMatches(h: Heap, text: seq<byte>, cell: Value): (r: Result<bool, Error>)
    ensures r.Ok? <==> Readable(h, cell) && SymbolAt(h, h.conses[cell.index].car).Ok?
    ensures r.Ok? && NoNul(text) ==> (r.value <==> text <= h.symbols[h.conses[cell.index].car.index])
  {
    var c :- ConsAt(h, cell);
    var name :- SymbolAt(h, c.car);
    var matches := StrnEq(text, name, |text|);
    if NoNul(text) then StrnEqIsPrefix(text, name); Ok(matches) else Ok(matches)
  }

  /** The loop of scan_frame over the parallel cells `vs` and `ws`, from position `j`. */
  function ScanCells(h: Heap, text: seq<byte>, vs: seq<Value>, ws: seq<Value>, j: nat): Result<Option<Binding>, Error>
    requires |vs| == |ws| && j <= |vs|
    decreases |vs| - j
  {
    if j == |vs| then Ok(None)
    else
      var varEntry :- ConsAt(h, vs[j]);
      var valEntry :- ConsAt(h, ws[j]);
      var name :- SymbolAt(h, varEntry.car);
      if StrnEq(text, name, |text|) then Ok(Some(Binding(vs[j], ws[j], valEntry.car)))
      else ScanCells(h, text, vs, ws, j + 1)
  }

  /**
    scan_frame: the first binding of the frame whose variable's text starts
    with the searched symbol's text, after the assertion that the frame's
    two lists have the same length.
  */
  function ScanFrame(h: Heap, variable: Value, frame: Value): Result<Option<Binding>, Error> {
    var text :- SymbolAt(h, variable);
    var f :- ConsAt(h, frame);
    var same :- SameLength(h, f.car, f.cdr);
    if !same then Err(AssertionFailed("internal_length(vars) == internal_length(vals)"))
    else ScanCells(h, text, Spine(h, f.car).value, Spine(h, f.cdr).value, 0)
  }

  /**
    scan_environment from env cell `env`, `k` env cells having come before:
    the binding in the innermost frame that has one.
  */
  function ScanEnvFrom(h: Heap, variable: Value, env: Value, k: nat): Result<Option<Binding>, Error>
    requires k <= |h.conses|
    decreases |h.conses| - k
  {
    if env == Null then Ok(None)
    else
      var e :- ConsAt(h, env);
      if k == |h.conses| then Err(Diverges)
      else
        var found :- ScanFrame(h, variable, e.car);
        if found.Some? then Ok(found)
        else ScanEnvFrom(h, variable, e.cdr, k + 1)
  }

  function ScanEnvironment(h: Heap, variable: Value, env: Value): Result<Option<Binding>, Error> {
    ScanEnvFrom(h, variable, env, 0)
  }

  /**
    A binding the frame loop finds sits at some position of the two
    lists: its value cell is readable, the value is that cell's car, and
    the variable's name answers the search.
  */
  lemma {:induction false} ScanCellsFound(h: Heap, text: seq<byte>, vs: seq<Value>, ws: seq<Value>, j: nat)
    requires |vs| == |ws| && j <= |vs|
    decreases |vs| - j
    ensures var r := ScanCells(h, text, vs, ws, j);
      r.Ok? && r.value.Some? ==>
        && (exists k :: j <= k < |vs| && r.value.value.varsCell == vs[k] && r.value.value.valsCell == ws[k])
        && ConsAt(h, r.value.value.valsCell).Ok?
        && r.value.value.value == h.conses[r.value.value.valsCell.index].car
        && NameMatches(h, text, r.value.value.varsCell) == Ok(true)
  {
    if j < |vs| {
      ScanCellsFound(h, text, vs, ws, j + 1);
    }
  }

  /** A binding scan_frame finds is a binding of a name the searched symbol's text begins. */
  lemma {:induction false} ScanFrameFound(h: Heap, variable: Value, frame: Value)
    ensures var r := ScanFrame(h, variable, frame);
      r.Ok? && r.value.Some? ==>
        && ConsAt(h, r.value.value.valsCell).Ok?
        && r.value.value.value == h.conses[r.value.value.valsCell.index].car
        && variable.Symbol? && variable.index < |h.symbols|
        && NameMatches(h, h.symbols[variable.index], r.value.value.varsCell) == Ok(true)
        && Readable(h, frame)
        && Spine(h, h.conses[frame.index].car).Ok? && Spine(h, h.conses[frame.index].cdr).Ok?
        && r.value.value.varsCell in Spine(h, h.conses[frame.index].car).value
        && r.value.value.valsCell in Spine(h, h.conses[frame.index].cdr).value
  {
    var r := ScanFrame(h, variable, frame);
    if r.Ok? && r.value.Some? {
      var text := SymbolAt(h, variable).value;
      var f := ConsAt(h, frame).value;
      SpineIsChain(h, f.car);
      SpineIsChain(h, f.cdr);
      ScanCellsFound(h, text, Spine(h, f.car).value, Spine(h, f.cdr).value, 0);
    }
  }

  /** A binding scan_environment finds is one that scan_frame finds in some frame. */
  lemma {:induction false} ScanEnvFromFound(h: Heap, variable: Value, env: Value, k: nat)
    requires k <= |h.conses|
    decreases |h.conses| - k
    ensures var r := ScanEnvFrom(h, variable, env, k);
      r.Ok? && r.value.Some? ==>
        && ConsAt(h, r.value.value.valsCell).Ok?
        && r.value.value.value == h.conses[r.value.value.valsCell.index].car
  {
    var r := ScanEnvFrom(h, variable, env, k);
    if env != Null && r.Ok? && r.value.Some? {
      var e := ConsAt(h, env).value;
      ScanFrameFound(h, variable, e.car);
      if ScanFrame(h, variable, e.car).value.None? {
        ScanEnvFromFound(h, variable, e.cdr, k + 1);
      }
    }
  }

  /** The position of the first symbol whose text is exactly `text`. */
  function FindSymbol(symbols: seq<seq<byte>>, text: seq<byte>): (r: Option<nat>)
    ensures r.Some? ==> r.value < |symbols| && symbols[r.value] == text
    ensures r.Some? ==> forall i :: 0 <= i < r.value ==> symbols[i] != text
    ensures r.None? ==> forall i :: 0 <= i < |symbols| ==> symbols[i] != text
  {
    if |symbols| == 0 then None
    else if symbols[0] == text then Some(0)
    else match FindSymbol(symbols[1..], text)
      case None => None
      case Some(i) => Some(i + 1)
  }

  /**
    symbol(): the symbol with text `text`. Its definition is not part of
    this model's sources; the model interns by exact text, answering the
    oldest symbol with that text or allocating a new one.
  */
  function Intern(h: Heap, text: seq<byte>): (r: Outcome)
    ensures r.value.Symbol? && r.value.index < |r.heap.symbols| && r.heap.symbols[r.value.index] == text
    ensures r.heap.conses == h.conses && r.heap.lambdas == h.lambdas && r.heap.primitives == h.primitives
    ensures r.heap.strings == h.strings
    ensures |h.symbols| <= |r.heap.symbols| && r.heap.symbols[..|h.symbols|] == h.symbols
  {
    match FindSymbol(h.symbols, text)
    case Some(i) => Outcome(h, Symbol(i))
    case None => NewSymbol(h, text)
  }

  /** add_binding_to_frame: prepend the variable and the value to the frame's two lists. */
  function AddBindingToFrame(h: Heap, variable: Value, value: Value, frame: Value): (r: Result<Heap, Error>)
    ensures r.Ok? <==> ConsAt(h, frame).Ok?
    ensures r.Ok? ==>
      var n := |h.conses|;
      && r.value.conses == h.conses[frame.index := ConsEntry(Cons(n), Cons(n + 1))]
                           + [ConsEntry(variable, h.conses[frame.index].car),
                              ConsEntry(value, h.conses[frame.index].cdr)]
      && r.value.symbols == h.symbols && r.value.strings == h.strings
      && r.value.lambdas == h.lambdas && r.value.primitives == h.primitives
  {
    var f :- ConsAt(h, frame);
    var vars := NewCons(h, ConsEntry(variable, f.car));
    var h1 := WriteCons(vars.heap, frame.index, f.(car := vars.value));
    var vals := NewCons(h1, ConsEntry(value, h1.conses[frame.index].cdr));
    Ok(WriteCons(vals.heap, frame.index, h1.conses[frame.index].(cdr := vals.value)))
  }

  /** first_frame: the car of the environment's first cell. */
  function FirstFrame(h: Heap, env: Value): Result<Value, Error> {
    Car(h, env)
  }

  /**
    define_variable: in the first frame only, overwrite the value of the
    binding scan_frame finds, or else add a binding; answer the symbol ok.
  */
  function DefineVariable(h: Heap, variable: Value, value: Value, env: Value): Result<Outcome, Error> {
    var frame :- FirstFrame(h, env);
    var found :- ScanFrame(h, variable, frame);
    match found
    case Some(b) => AssignBinding(h, b, value)
    case None =>
      var h1 :- AddBindingToFrame(h, variable, value, frame);
      Ok(Intern(h1, OkText))
  }

  /**
    set_variable_value: overwrite the value of the binding in the innermost
    frame that has one; no binding anywhere is fatal.
  */
  function SetVariableValue(h: Heap, variable: Value, value: Value, env: Value): Result<Outcome, Error> {
    var found :- ScanEnvironment(h, variable, env);
    match found
    case None => Err(Fatal("set variable value on non-existent variable"))
    case Some(b) => AssignBinding(h, b, value)
  }

  /** A write of `value` through the entry of a found binding's value cell; the answer is ok. */
  function AssignBinding(h: Heap, b: Binding, value: Value): Result<Outcome, Error> {
    var entry :- ConsAt(h, b.valsCell);
    Ok(Intern(WriteCons(h, b.valsCell.index, entry.(car := value)), OkText))
  }

  /** lookup_variable_value: the value bound to a symbol, `None` for the NULL of an unbound one. */
  function LookupVariableValue(h: Heap, name: Value, env: Value): Result<Option<Value>, Error> {
    if !name.Symbol? then Err(Fatal("not a symbol"))
    else
      var found :- ScanEnvironment(h, name, env);
      match found
      case None => Ok(None)
      case Some(b) => Ok(Some(b.value))
  }

  /** make_frame: a cons of the two lists, after its debug assertions. */
  function MakeFrame(h: Heap, vars: Value, vals: Value): Result<Outcome, Error> {
    if vars == Null then
      if vals != Null then Err(AssertionFailed("vals == g_scheme_null"))
      else Ok(NewCons(h, ConsEntry(Null, Null)))
    else if !vars.Cons? then Err(AssertionFailed("vars->type == SCHEME_CONS"))
    else if !vals.Cons? then Err(AssertionFailed("vals->type == SCHEME_CONS"))
    else
      var same :- SameLength(h, vars, vals);
      if !same then Err(AssertionFailed("internal_length(vars) == internal_length(vals)"))
      else Ok(NewCons(h, ConsEntry(vars, vals)))
  }

  /**
    extend_environment: a new first frame binding `vars` to `vals` in front
    of `base`; lists of different lengths are fatal.
  */
  function ExtendEnvironment(h: Heap, vars: Value, vals: Value, base: Value): Result<Outcome, Error> {
    var same :- SameLength(h, vars, vals);
    if !same then Err(Fatal("Vars and vals do not align"))
    else
      var frame :- MakeFrame(h, vars, vals);
      Ok(NewCons(frame.heap, ConsEntry(frame.value, base)))
  }

  /**
    array_to_cons: a fresh list of `objects`, in order; an empty array
    fails the assertion.
  */
  function ArrayToCons(h: Heap, objects: seq<Value>): Result<Outcome, Error> {
    if |objects| == 0 then Err(AssertionFailed("num_objects > 0"))
    else Ok(Outcome(h.(conses := h.conses + ListCells(|h.conses|, objects)), Cons(|h.conses|)))
  }

  /** The cells of a fresh list of `objects` whose first cell has index `base`. */
  function ListCells(base: nat, objects: seq<Value>): (r: seq<ConsEntry>)
    ensures |r| == |objects|
  {
    seq(|objects|, i requires 0 <= i < |objects| =>
      ConsEntry(objects[i], if i + 1 < |objects| then Cons(base + i + 1) else Null))
  }
}

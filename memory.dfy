/**
  The typed value store.

  A runtime value carries a kind and, for every kind but numbers, an index
  into the arena of that kind. Allocating a cons, a string or a symbol takes
  an object slot from the object arena and an entry from the kind's own
  arena; strings and symbols also reserve `len + 1` bytes in the shared byte
  arena. Looking an entry up checks the kind and computes a slot from the
  index with the arena's index formula.

  Entries are kept here as sequences indexed by the arena index, next to the
  arena objects whose counters the C code advances. A lookup answers the
  entry allocated under that index; the slot the index formula computes is
  that entry's slot for the first ConsAgreeBound + 1 conses and the first
  TextAgreeBound + 1 strings and symbols, and another slot after them. The store also tracks
  closures and primitives, whose allocation helpers are not part of this
  model's sources; they get small contracts of their own.
*/
module Memory {
  import opened Wrappers
  import opened Errors
  import opened CString
  import opened Allocator

  const ObjectPageSize: nat := 0x10_0000
  const BytesPageSize: nat := 0x20_0000
  const StringsPageSize: nat := 0x4000
  const SymbolsPageSize: nat := 0x4000
  const ConsPageSize: nat := 0x10_0000
  /** Size of an object and of a cons, string or symbol entry (two machine words on LP64). */
  const EntrySize: nat := 16
  /** The operating system's page size. */
  const SysPageSize: nat := 4096
  /** The last cons index whose looked-up slot is the slot it was allocated in. */
  const ConsAgreeBound: nat := 2 * (ConsPageSize / EntrySize) - EntrySize
  /** The last string or symbol index whose looked-up slot is the slot it was allocated in. */
  const TextAgreeBound: nat := 2 * (StringsPageSize / EntrySize) - EntrySize

  /** A runtime value: its kind, with the inline integer or the per-kind arena index. */
  datatype Value =
    | Null
    | Number(n: int)
    | Str(index: nat)
    | Symbol(index: nat)
    | Cons(index: nat)
    | Lambda(index: nat)
    | Primitive(index: nat)
    | Double(index: nat)

  /** The type tag of an object. */
  datatype Kind = NullKind | NumberKind | StringKind | SymbolKind | ConsKind | LambdaKind | PrimitiveKind | DoubleKind

  function KindOf(v: Value): Kind {
    match v
    case Null => NullKind
    case Number(_) => NumberKind
    case Str(_) => StringKind
    case Symbol(_) => SymbolKind
    case Cons(_) => ConsKind
    case Lambda(_) => LambdaKind
    case Primitive(_) => PrimitiveKind
    case Double(_) => DoubleKind
  }

  datatype ConsEntry = ConsEntry(car: Value, cdr: Value)
  datatype LambdaEntry = LambdaEntry(parameters: Value, body: Value)
  /** The native functions a primitive can stand for. */
  datatype NativeFn = CarFn
  datatype PrimitiveEntry = PrimitiveEntry(name: seq<byte>, func: NativeFn)

  /**
    The contents of the store, entry by entry, indexed by arena index. A
    string or symbol entry is its text; its `len` is the text's length.
  */
  datatype Heap = Heap(
    conses: seq<ConsEntry>,
    strings: seq<seq<byte>>,
    symbols: seq<seq<byte>>,
    lambdas: seq<LambdaEntry>,
    primitives: seq<PrimitiveEntry>)

  const EmptyHeap: Heap := Heap([], [], [], [], [])

  /** A heap together with a value computed in it. */
  datatype Outcome = Outcome(heap: Heap, value: Value)

  /** A cons whose entry get_cons_entry can read. */
  predicate Readable(h: Heap, v: Value) {
    v.Cons? && v.index < |h.conses| && v.index < TwoTo63
  }

  /**
    get_cons_entry: a cons's entry. The kind check is fatal, an index the
    arena never handed out a failed assertion, an index of 2^63 or more fatal.
  */
  function ConsAt(h: Heap, v: Value): (r: Result<ConsEntry, Error>)
    ensures r.Ok? <==> Readable(h, v)
    ensures r.Ok? ==> r.value == h.conses[v.index]
    ensures !v.Cons? ==> r == Err(Fatal("Not a pair"))
  {
    if !v.Cons? then Err(Fatal("Not a pair"))
    else if v.index >= |h.conses| then Err(AssertionFailed("Indexed beyond allocated elements"))
    else if v.index >= TwoTo63 then Err(Fatal("index too large"))
    else Ok(h.conses[v.index])
  }

  /** get_string_entry, answering the string's text. */
  function StringAt(h: Heap, v: Value): (r: Result<seq<byte>, Error>)
    ensures r.Ok? <==> v.Str? && v.index < |h.strings| && v.index < TwoTo63
    ensures r.Ok? ==> r.value == h.strings[v.index]
    ensures !v.Str? ==> r == Err(Fatal("Not a string"))
  {
    if !v.Str? then Err(Fatal("Not a string"))
    else if v.index >= |h.strings| then Err(AssertionFailed("Indexed beyond allocated elements"))
    else if v.index >= TwoTo63 then Err(Fatal("index too large"))
    else Ok(h.strings[v.index])
  }

  /** get_symbol_entry, answering the symbol's text. */
  function SymbolAt(h: Heap, v: Value): (r: Result<seq<byte>, Error>)
    ensures r.Ok? <==> v.Symbol? && v.index < |h.symbols| && v.index < TwoTo63
    ensures r.Ok? ==> r.value == h.symbols[v.index]
    ensures !v.Symbol? ==> r == Err(Fatal("Not a symbol"))
  {
    if !v.Symbol? then Err(Fatal("Not a symbol"))
    else if v.index >= |h.symbols| then Err(AssertionFailed("Indexed beyond allocated elements"))
    else if v.index >= TwoTo63 then Err(Fatal("index too large"))
    else Ok(h.symbols[v.index])
  }

  /** The entry of a closure (get_lambda_entry is not part of this model's sources). */
  function LambdaAt(h: Heap, v: Value): (r: Result<LambdaEntry, Error>)
    ensures r.Ok? <==> v.Lambda? && v.index < |h.lambdas|
    ensures r.Ok? ==> r.value == h.lambdas[v.index]
  {
    if v.Lambda? && v.index < |h.lambdas| then Ok(h.lambdas[v.index])
    else Err(Fatal("Not a lambda"))
  }

  /** The entry of a primitive (get_primitive_entry is not part of this model's sources). */
  function PrimitiveAt(h: Heap, v: Value): (r: Result<PrimitiveEntry, Error>)
    ensures r.Ok? <==> v.Primitive? && v.index < |h.primitives|
    ensures r.Ok? ==> r.value == h.primitives[v.index]
  {
    if v.Primitive? && v.index < |h.primitives| then Ok(h.primitives[v.index])
    else Err(Fatal("Not a primitive"))
  }

  /** A fresh cons holding `e`. */
  function NewCons(h: Heap, e: ConsEntry): Outcome {
    Outcome(h.(conses := h.conses + [e]), Cons(|h.conses|))
  }

  /** A fresh string with text `text`. */
  function NewString(h: Heap, text: seq<byte>): Outcome {
    Outcome(h.(strings := h.strings + [text]), Str(|h.strings|))
  }

  /** A fresh symbol with text `text`. */
  function NewSymbol(h: Heap, text: seq<byte>): Outcome {
    Outcome(h.(symbols := h.symbols + [text]), Symbol(|h.symbols|))
  }

  function NewLambda(h: Heap, e: LambdaEntry): Outcome {
    Outcome(h.(lambdas := h.lambdas + [e]), Lambda(|h.lambdas|))
  }

  function NewPrimitive(h: Heap, e: PrimitiveEntry): Outcome {
    Outcome(h.(primitives := h.primitives + [e]), Primitive(|h.primitives|))
  }

  /** A write through a cons entry pointer. */
  function WriteCons(h: Heap, slot: nat, e: ConsEntry): Heap
    requires slot < |h.conses|
  {
    h.(conses := h.conses[slot := e])
  }

  /**
    A fresh cons is found again through its value, and every entry that
    was there before reads as it did.
  */
  lemma {:induction false} NewConsThenGet(h: Heap, e: ConsEntry, w: Value)
    requires |h.conses| < TwoTo63
    ensures ConsAt(NewCons(h, e).heap, NewCons(h, e).value) == Ok(e)
    ensures ConsAt(h, w).Ok? ==> ConsAt(NewCons(h, e).heap, w) == ConsAt(h, w)
  {
  }

  /** A write through one cons's entry changes what that cons reads and no other. */
  lemma {:induction false} WriteConsThenGet(h: Heap, slot: nat, e: ConsEntry, w: Value)
    requires slot < |h.conses| && slot < TwoTo63
    ensures ConsAt(WriteCons(h, slot, e), Cons(slot)) == Ok(e)
    ensures w != Cons(slot) ==> ConsAt(WriteCons(h, slot, e), w) == ConsAt(h, w)
  {
  }

  /** Geometry of the cons, string and symbol arenas. */
  function ConsGeometry(): Geometry { Geometry(EntrySize, ConsPageSize) }
  function StringGeometry(): Geometry { Geometry(EntrySize, StringsPageSize) }
  function SymbolGeometry(): Geometry { Geometry(EntrySize, SymbolsPageSize) }

  class Store {
    const objectArena: PageArena
    const byteArena: ByteArena
    const consArena: PageArena
    const stringArena: PageArena
    const symbolArena: PageArena
    var conses: seq<ConsEntry>
    var strings: seq<seq<byte>>
    /** Where each string's `len + 1` bytes were reserved. */
    var stringBytes: seq<ByteLoc>
    var symbols: seq<seq<byte>>
    /** Where each symbol's `len + 1` bytes were reserved. */
    var symbolBytes: seq<ByteLoc>
    var lambdas: seq<LambdaEntry>
    var primitives: seq<PrimitiveEntry>

    ghost function Repr(): set<object> {
      {this, objectArena, byteArena, consArena, stringArena, symbolArena}
    }

    /** The store's contents. */
    function Abs(): Heap
      reads this
    {
      Heap(conses, strings, symbols, lambdas, primitives)
    }

    ghost predicate Valid()
      reads Repr()
    {
      && objectArena != consArena && objectArena != stringArena && objectArena != symbolArena
      && consArena != stringArena && consArena != symbolArena && stringArena != symbolArena
      && objectArena.Valid() && byteArena.Valid()
      && consArena.Valid() && stringArena.Valid() && symbolArena.Valid()
      && objectArena.Geom() == Geometry(EntrySize, ObjectPageSize)
      && consArena.Geom() == ConsGeometry()
      && stringArena.Geom() == StringGeometry()
      && symbolArena.Geom() == SymbolGeometry()
      && byteArena.pageSize == BytesPageSize
      && consArena.Counts() == Run(ConsGeometry(), |conses|)
      && stringArena.Counts() == Run(StringGeometry(), |strings|)
      && symbolArena.Counts() == Run(SymbolGeometry(), |symbols|)
      && consArena.totalElements == |conses|
      && stringArena.totalElements == |strings|
      && symbolArena.totalElements == |symbols|
      && |stringBytes| == |strings| && |symbolBytes| == |symbols|
      && objectArena.totalElements == |conses| + |strings| + |symbols|
    }

    /** memory_init: one empty arena per store and an empty byte arena. */
    constructor ()
      ensures Valid() && fresh(Repr() - {this})
      ensures Abs() == EmptyHeap
    {
      objectArena := new PageArena(EntrySize, ObjectPageSize, SysPageSize);
      byteArena := new ByteArena(BytesPageSize, SysPageSize);
      consArena := new PageArena(EntrySize, ConsPageSize, SysPageSize);
      stringArena := new PageArena(EntrySize, StringsPageSize, SysPageSize);
      symbolArena := new PageArena(EntrySize, SymbolsPageSize, SysPageSize);
      conses, strings, symbols := [], [], [];
      stringBytes, symbolBytes := [], [];
      lambdas, primitives := [], [];
    }

    /** allocate_object: a slot in the object arena. */
    method AllocateObject()
      requires Valid()
      modifies objectArena
      ensures objectArena.Valid()
      ensures objectArena.totalElements == old(objectArena.totalElements) + 1
    {
      var _, _ := objectArena.Allocate();
    }

    /**
      allocate_string: a STRING object whose index is the string arena's
      next index, with `len + 1` bytes reserved in the byte arena. The
      caller writes the text; the model takes it here.
    */
    method AllocateString(text: seq<byte>) returns (v: Value)
      requires Valid()
      modifies Repr()
      ensures Valid()
      ensures Outcome(Abs(), v) == NewString(old(Abs()), text)
      ensures objectArena.totalElements == old(objectArena.totalElements) + 1
      ensures byteArena.Counts() == ByteStep(BytesPageSize, old(byteArena.Counts()), |text| + 1).next
      ensures stringBytes == old(stringBytes) + [ByteStep(BytesPageSize, old(byteArena.Counts()), |text| + 1).loc]
      ensures symbolBytes == old(symbolBytes)
    {
      AllocateObject();
      var at := byteArena.Allocate(|text| + 1);
      var loc, idx := stringArena.Allocate();
      RunCountsCalls(StringGeometry(), |strings| + 1);
      strings, stringBytes := strings + [text], stringBytes + [at];
      v := Str(idx);
    }

    /** allocate_symbol: as allocate_string, in the symbol arena. */
    method AllocateSymbol(text: seq<byte>) returns (v: Value)
      requires Valid()
      modifies Repr()
      ensures Valid()
      ensures Outcome(Abs(), v) == NewSymbol(old(Abs()), text)
      ensures objectArena.totalElements == old(objectArena.totalElements) + 1
      ensures byteArena.Counts() == ByteStep(BytesPageSize, old(byteArena.Counts()), |text| + 1).next
      ensures symbolBytes == old(symbolBytes) + [ByteStep(BytesPageSize, old(byteArena.Counts()), |text| + 1).loc]
      ensures stringBytes == old(stringBytes)
    {
      AllocateObject();
      var at := byteArena.Allocate(|text| + 1);
      var loc, idx := symbolArena.Allocate();
      RunCountsCalls(SymbolGeometry(), |symbols| + 1);
      symbols, symbolBytes := symbols + [text], symbolBytes + [at];
      v := Symbol(idx);
    }

    /**
      allocate_cons: a CONS object whose index is the cons arena's next
      index. The C code hands back the uninitialised entry; the model fills
      it with `initial`, which is what every caller writes first.
    */
    method AllocateCons(initial: ConsEntry) returns (v: Value)
      requires Valid()
      modifies Repr()
      ensures Valid()
      ensures Outcome(Abs(), v) == NewCons(old(Abs()), initial)
      ensures byteArena.Counts() == old(byteArena.Counts())
      ensures stringBytes == old(stringBytes) && symbolBytes == old(symbolBytes)
    {
      AllocateObject();
      var loc, idx := consArena.Allocate();
      RunCountsCalls(ConsGeometry(), |conses| + 1);
      conses := conses + [initial];
      v := Cons(idx);
    }

    /**
      get_cons_entry through the arena's index formula: the slot it
      resolves to, or the failure ConsAt names.
    */
    function GetConsEntry(v: Value): (r: Result<nat, Error>)
      reads Repr()
      requires Valid()
      ensures r.Ok? <==> ConsAt(Abs(), v).Ok?
      ensures r.Ok? ==> r.value < |conses| && conses[r.value] == ConsAt(Abs(), v).value
      ensures r.Err? ==> r.error == ConsAt(Abs(), v).error
      ensures r.Ok? ==> consArena.ItemAt(v.index) == Ok(IndexLoc(ConsGeometry(), v.index))
      ensures r.Ok? && v.index <= ConsAgreeBound ==> IndexLoc(ConsGeometry(), v.index) == LocOf(ConsGeometry(), r.value)
    {
      if !v.Cons? then Err(Fatal("Not a pair"))
      else match consArena.ItemAt(v.index)
        case Err(e) =>
          if v.index >= consArena.totalElements then Err(AssertionFailed(e))
          else Err(Fatal(e))
        case Ok(_) =>
          if v.index <= ConsAgreeBound then ConsEntryRoundTrip(v.index); Ok(v.index) else Ok(v.index)
    }

    /** get_string_entry through the arena's index formula. */
    function GetStringEntry(v: Value): (r: Result<nat, Error>)
      reads Repr()
      requires Valid()
      ensures r.Ok? <==> StringAt(Abs(), v).Ok?
      ensures r.Ok? ==> r.value < |strings| && strings[r.value] == StringAt(Abs(), v).value
      ensures r.Err? ==> r.error == StringAt(Abs(), v).error
      ensures r.Ok? ==> stringArena.ItemAt(v.index) == Ok(IndexLoc(StringGeometry(), v.index))
      ensures r.Ok? && v.index <= TextAgreeBound ==> IndexLoc(StringGeometry(), v.index) == LocOf(StringGeometry(), r.value)
    {
      if !v.Str? then Err(Fatal("Not a string"))
      else match stringArena.ItemAt(v.index)
        case Err(e) =>
          if v.index >= stringArena.totalElements then Err(AssertionFailed(e))
          else Err(Fatal(e))
        case Ok(_) =>
          if v.index <= TextAgreeBound then TextEntryRoundTrip(v.index); Ok(v.index) else Ok(v.index)
    }

    /** get_symbol_entry through the arena's index formula. */
    function GetSymbolEntry(v: Value): (r: Result<nat, Error>)
      reads Repr()
      requires Valid()
      ensures r.Ok? <==> SymbolAt(Abs(), v).Ok?
      ensures r.Ok? ==> r.value < |symbols| && symbols[r.value] == SymbolAt(Abs(), v).value
      ensures r.Err? ==> r.error == SymbolAt(Abs(), v).error
      ensures r.Ok? ==> symbolArena.ItemAt(v.index) == Ok(IndexLoc(SymbolGeometry(), v.index))
      ensures r.Ok? && v.index <= TextAgreeBound ==> IndexLoc(SymbolGeometry(), v.index) == LocOf(SymbolGeometry(), r.value)
    {
      if !v.Symbol? then Err(Fatal("Not a symbol"))
      else match symbolArena.ItemAt(v.index)
        case Err(e) =>
          if v.index >= symbolArena.totalElements then Err(AssertionFailed(e))
          else Err(Fatal(e))
        case Ok(_) =>
          if v.index <= TextAgreeBound then TextEntryRoundTrip(v.index); Ok(v.index) else Ok(v.index)
    }

    /** A write through a cons entry pointer. */
    method SetConsEntry(slot: nat, e: ConsEntry)
      requires Valid() && slot < |conses|
      modifies this
      ensures Valid()
      ensures Abs() == WriteCons(old(Abs()), slot, e)
      ensures stringBytes == old(stringBytes) && symbolBytes == old(symbolBytes)
    {
      conses := conses[slot := e];
    }

    /** Allocation of a closure entry (its helper is not part of this model's sources). */
    method AllocateLambda(e: LambdaEntry) returns (v: Value)
      requires Valid()
      modifies this
      ensures Valid()
      ensures Outcome(Abs(), v) == NewLambda(old(Abs()), e)
      ensures stringBytes == old(stringBytes) && symbolBytes == old(symbolBytes)
    {
      v := Lambda(|lambdas|);
      lambdas := lambdas + [e];
    }

    /** Allocation of a primitive entry (its helper is not part of this model's sources). */
    method AllocatePrimitive(e: PrimitiveEntry) returns (v: Value)
      requires Valid()
      modifies this
      ensures Valid()
      ensures Outcome(Abs(), v) == NewPrimitive(old(Abs()), e)
      ensures stringBytes == old(stringBytes) && symbolBytes == old(symbolBytes)
    {
      v := Primitive(|primitives|);
      primitives := primitives + [e];
    }
  }

  /**
    Where the C code finds cons number `i` again agrees with where
    allocate_cons put it for the first 2 * 65536 - 16 + 1 conses.
  */
  lemma {:induction false} ConsEntryRoundTrip(i: nat)
    requires i <= ConsAgreeBound
    ensures LocOf(ConsGeometry(), i) == IndexLoc(ConsGeometry(), i)
  {
    IndexFormulaThroughSecondPage(ConsGeometry(), i);
  }

  /**
    The cons that opens the third cons page, number 131057, is looked up
    on the second page: from there on get_cons_entry resolves a cons to a
    slot other than its own.
  */
  lemma {:induction false} ConsEntryAliasFromThirdPage()
    ensures LocOf(ConsGeometry(), 131057) == Loc(2, 0)
    ensures IndexLoc(ConsGeometry(), 131057).page == 1
  {
    IndexFormulaBreaksOnThirdPage(ConsGeometry());
  }

  /** The same for the string and symbol arenas, whose pages hold 1024 entries, through index 2032. */
  lemma {:induction false} TextEntryRoundTrip(i: nat)
    requires i <= TextAgreeBound
    ensures LocOf(StringGeometry(), i) == IndexLoc(StringGeometry(), i)
    ensures LocOf(SymbolGeometry(), i) == IndexLoc(SymbolGeometry(), i)
  {
    IndexFormulaThroughSecondPage(StringGeometry(), i);
  }

  /** The string and symbol arenas have pages of 1024 entries; they part ways at entry 2033. */
  lemma {:induction false} TextEntryAliasFromThirdPage()
    ensures LocOf(StringGeometry(), 2033) == Loc(2, 0)
    ensures IndexLoc(StringGeometry(), 2033).page == 1
    ensures forall i :: 0 <= i <= 2032 ==> LocOf(StringGeometry(), i) == IndexLoc(StringGeometry(), i)
  {
    IndexFormulaBreaksOnThirdPage(StringGeometry());
    forall i | 0 <= i <= 2032
      ensures LocOf(StringGeometry(), i) == IndexLoc(StringGeometry(), i)
    {
      IndexFormulaThroughSecondPage(StringGeometry(), i);
    }
  }
}

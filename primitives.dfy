/**
  The native primitives and their registration table.

  A primitive receives the evaluated operands of an application as an
  argument count and an array; `car` is the only one the table lists.
*/
module Primitives {
  import opened Wrappers
  import opened Errors
  import opened CString
  import opened Memory

  /** "car" */
  const CarName: seq<byte> := [0x63, 0x61, 0x72]

  /** A row of the registration table: a name and the native function it stands for. */
  datatype Mapping = Mapping(name: seq<byte>, func: NativeFn)

  /** The registration table, in order. */
  const Table: seq<Mapping> := [Mapping(CarName, CarFn)]

  /**
    car_primitive: exactly one argument, which must be a cons; the answer
    is that cons's car, and the heap is left as it was.
  */
  function CarPrimitive(h: Heap, args: seq<Value>): (r: Result<Value, Error>)
    ensures |args| != 1 ==> r == Err(Fatal("Expected 1 arg"))
    ensures |args| == 1 && !args[0].Cons? ==> r == Err(Fatal("Expected cons"))
    ensures |args| == 1 && args[0].Cons? ==> (r.Ok? <==> Readable(h, args[0]))
    ensures r.Ok? ==> |args| == 1 && r.value == h.conses[args[0].index].car
  {
    if |args| != 1 then Err(Fatal("Expected 1 arg"))
    else if !args[0].Cons? then Err(Fatal("Expected cons"))
    else
      var entry :- ConsAt(h, args[0]);
      Ok(entry.car)
  }

  /** A call through a primitive entry's function pointer. */
  function Apply(h: Heap, f: NativeFn, args: seq<Value>): Result<Value, Error> {
    match f
    case CarFn => CarPrimitive(h, args)
  }
}

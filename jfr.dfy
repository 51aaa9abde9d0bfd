/**
 * The frame types of the recorded stack traces (src/.../jfr/StackFrameType.java)
 * and the frame record (src/.../jfr/StackFrame.java). `byId` looks a type up
 * by its numeric id with a linear search over the constants in declaration
 * order, and throws when no constant carries the id.
 */
module Jfr {
  import opened Wrappers

  /** A Java `byte`: the parameter type of `byId`. */
  newtype Byte = x: int | -128 <= x < 128

  /** The constants, each carrying its id. */
  datatype StackFrameType = Zero | First | Second | Third | Fourth | Fifth | Sixth

  /** The `id` field each constant is built with. */
  function Id(t: StackFrameType): int {
    match t
    case Zero => 0
    case First => 1
    case Second => 2
    case Third => 3
    case Fourth => 4
    case Fifth => 5
    case Sixth => 6
  }

  /** `values()`: the constants in declaration order. */
  const Values: seq<StackFrameType> := [Zero, First, Second, Third, Fourth, Fifth, Sixth]

  /** The `RuntimeException` `byId` throws, with the id it could not find. */
  datatype LookupError = CannotFind(id: Byte)

  /** Every constant is among `values()`. */
  lemma Complete()
    ensures forall v: StackFrameType :: v in Values
  {
    forall v: StackFrameType ensures v in Values {
      assert Values[Id(v)] == v;
    }
  }

  /** The loop of `byId` over the constants `vs`: the first one whose id is
      `id`, if any. */
  function Search(vs: seq<StackFrameType>, id: Byte): (r: Option<StackFrameType>)
    ensures r.Some? ==> r.value in vs && Id(r.value) == id as int
    ensures r.None? ==> forall v | v in vs :: Id(v) != id as int
  {
    if vs == [] then None
    else if Id(vs[0]) == id as int then Some(vs[0])
    else Search(vs[1..], id)
  }

  /** `byId`: the constant with id `id`, or the exception. */
  function ById(id: Byte): (r: Result<StackFrameType, LookupError>)
    ensures r.Ok? ==> Id(r.value) == id as int
    ensures r.Err? ==> r.error == CannotFind(id) && forall v: StackFrameType :: Id(v) != id as int
  {
    match Search(Values, id)
    case Some(v) => Ok(v)
    case None =>
      Complete();
      Err(CannotFind(id))
  }

  /** The constants carry the ids 0 to 6 in declaration order. */
  lemma DeclarationOrder()
    ensures |Values| == 7
    ensures forall k | 0 <= k < |Values| :: Id(Values[k]) == k
  {
  }

  /** No two constants share an id. */
  lemma IdsDistinct(a: StackFrameType, b: StackFrameType)
    ensures Id(a) == Id(b) <==> a == b
  {
  }

  /** The lookup succeeds exactly on the ids 0 to 6 and throws on every other
      byte. */
  lemma ByIdDefined(id: Byte)
    ensures ById(id).Ok? <==> 0 <= id <= 6
    ensures ById(id).Err? <==> (id < 0 || id > 6)
  {
    if 0 <= id <= 6 {
      var v := Values[id as int];
      assert Id(v) == id as int;
    }
  }

  /** Looking up the id of a constant gives the constant back. */
  lemma ByIdRoundTrip(v: StackFrameType)
    ensures ById(Id(v) as Byte) == Ok(v)
  {
    var r := ById(Id(v) as Byte);
    assert r.Ok? by {
      assert Id(v) != Id(v) as Byte as int ==> false;
    }
    IdsDistinct(r.value, v);
  }

  /** A frame of a recorded stack trace, with its method's descriptor split
      into readable names. */
  datatype StackFrame = StackFrame(
    className: string,
    methodName: string,
    parameters: seq<string>,
    returnValue: string,
    frameType: StackFrameType)
}

/**
 * The frame types of the newer code (app/.../jfr/StackFrameType.java): plain
 * constants without ids.
 */
module AppJfr {
  datatype StackFrameType =
    | Interpreted
    | JitCompiled
    | Inlined
    | Native
    | Cpp
    | Kernel
    | C1Compiled
    | Undefined
}

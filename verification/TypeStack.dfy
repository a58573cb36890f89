/** Abstract declarators: the pieces that the grammar's actions push while one is being reduced, and
    the type that `ptype` builds by popping them. */
module TypeStack {
  import opened Expression

  const TP_END: int := -1
  const TP_POINTER: int := 0
  const TP_REFERENCE: int := 1
  const TP_ARRAY: int := 2
  const TP_FUNCTION: int := 3

  /** What can stand where a declarator's name would: `*d`, `d[n]` or `d[]` (size -1), `d()`, `(d)`. */
  datatype Declarator =
    | Nothing
    | PointerTo(d: Declarator)
    | ArrayOf(d: Declarator, size: int)
    | FunctionOf(d: Declarator)
    | Parens(d: Declarator)

  predicate SizesGiven(d: Declarator) {
    match d
    case Nothing => true
    case PointerTo(e) => SizesGiven(e)
    case ArrayOf(e, size) => size >= -1 && SizesGiven(e)
    case FunctionOf(e) => SizesGiven(e)
    case Parens(e) => SizesGiven(e)
  }

  /** C's reading, from the outside in; an array without a size is taken for a pointer. */
  function Denoted(d: Declarator, base: CType): CType {
    match d
    case Nothing => base
    case PointerTo(e) => Denoted(e, Pointer(base))
    case ArrayOf(e, size) => Denoted(e, if size == -1 then Pointer(base) else CType.Array(base, size))
    case FunctionOf(e) => Denoted(e, CType.Function(base))
    case Parens(e) => Denoted(e, base)
  }

  /** The conversion to a 32-bit enumeration, and back to int. */
  function Truncated(n: int): (r: int)
    ensures -0x8000_0000 <= r < 0x8000_0000 && (r - n) % 0x1_0000_0000 == 0
  {
    (n + 0x8000_0000) % 0x1_0000_0000 - 0x8000_0000
  }

  /** Every array size comes through that unchanged. */
  predicate SizesFit(d: Declarator) {
    match d
    case Nothing => true
    case PointerTo(e) => SizesFit(e)
    case ArrayOf(e, size) => size < 0x8000_0000 && SizesFit(e)
    case FunctionOf(e) => SizesFit(e)
    case Parens(e) => SizesFit(e)
  }

  /** The pieces, in the order of the reductions. */
  function Pieces(d: Declarator): seq<int> {
    match d
    case Nothing => []
    case PointerTo(e) => Pieces(e) + [TP_POINTER]
    case ArrayOf(e, size) => Pieces(e) + [Truncated(size), TP_ARRAY]
    case FunctionOf(e) => Pieces(e) + [TP_FUNCTION]
    case Parens(e) => Pieces(e)
  }

  /** The type built by popping, and what is left on the stack then. */
  function Built(stack: seq<int>, base: CType): (CType, seq<int>)
    decreases |stack|
  {
    if stack == [] then (base, [])
    else
      var top, under := stack[|stack| - 1], stack[..|stack| - 1];
      if top == TP_END then (base, under)
      else if top == TP_POINTER then Built(under, Pointer(base))
      else if top == TP_REFERENCE then Built(under, CType.Reference(base))
      else if top == TP_FUNCTION then Built(under, CType.Function(base))
      else if top == TP_ARRAY then
        if under == [] then (Pointer(base), [])
        else
          var size := under[|under| - 1];
          Built(under[..|under| - 1], if size == -1 then Pointer(base) else CType.Array(base, size))
      else Built(under, base)
  }

  /** One piece popped. */
  lemma BuiltStep(under: seq<int>, top: int, base: CType)
    ensures Built([], base) == (base, [])
    ensures var now := Built(under + [top], base);
      if top == TP_END then now == (base, under)
      else if top == TP_POINTER then now == Built(under, Pointer(base))
      else if top == TP_REFERENCE then now == Built(under, CType.Reference(base))
      else if top == TP_FUNCTION then now == Built(under, CType.Function(base))
      else if top == TP_ARRAY then under == [] ==> now == (Pointer(base), [])
      else now == Built(under, base)
  {
    assert (under + [top])[..|under|] == under;
  }

  lemma BuiltArray(under: seq<int>, size: int, base: CType)
    ensures Built(under + [size] + [TP_ARRAY], base) == Built(under, if size == -1 then Pointer(base) else CType.Array(base, size))
  {
    var s := under + [size];
    assert (s + [TP_ARRAY])[..|s|] == s && s[..|under|] == under;
  }

  /** The same type, with each size as it comes off the stack. */
  function Read(d: Declarator, base: CType): CType {
    match d
    case Nothing => base
    case PointerTo(e) => Read(e, Pointer(base))
    case ArrayOf(e, size) => Read(e, if Truncated(size) == -1 then Pointer(base) else CType.Array(base, Truncated(size)))
    case FunctionOf(e) => Read(e, CType.Function(base))
    case Parens(e) => Read(e, base)
  }

  /** A size is never taken for a piece nor a piece for a size, and nothing is left over. */
  lemma {:induction false} PiecesBuild(d: Declarator, base: CType)
    ensures Built(Pieces(d), base) == (Read(d, base), [])
  {
    var s := Pieces(d);
    match d
    case Nothing =>
    case PointerTo(e) =>
      assert s[..|s| - 1] == Pieces(e);
      PiecesBuild(e, Pointer(base));
    case ArrayOf(e, size) =>
      assert s[..|s| - 1] == Pieces(e) + [Truncated(size)];
      assert s[..|s| - 1][..|s| - 2] == Pieces(e);
      PiecesBuild(e, if Truncated(size) == -1 then Pointer(base) else CType.Array(base, Truncated(size)));
    case FunctionOf(e) =>
      assert s[..|s| - 1] == Pieces(e);
      PiecesBuild(e, CType.Function(base));
    case Parens(e) => PiecesBuild(e, base);
  }

  lemma {:induction false} FittingRead(d: Declarator, base: CType)
    requires SizesGiven(d) && SizesFit(d)
    ensures Read(d, base) == Denoted(d, base)
  {
    match d
    case Nothing =>
    case PointerTo(e) => FittingRead(e, Pointer(base));
    case ArrayOf(e, size) => FittingRead(e, if size == -1 then Pointer(base) else CType.Array(base, size));
    case FunctionOf(e) => FittingRead(e, CType.Function(base));
    case Parens(e) => FittingRead(e, base);
  }

  /** The layers of a type show what it was built on, so one wrong size is never made good. */
  lemma {:induction false} ReadOnlyIfFitting(d: Declarator, x: CType, y: CType)
    requires SizesGiven(d) && Read(d, x) == Denoted(d, y)
    ensures x == y && SizesFit(d)
  {
    match d
    case Nothing =>
    case PointerTo(e) => ReadOnlyIfFitting(e, Pointer(x), Pointer(y));
    case ArrayOf(e, size) =>
      ReadOnlyIfFitting(e, if Truncated(size) == -1 then Pointer(x) else CType.Array(x, Truncated(size)),
                        if size == -1 then Pointer(y) else CType.Array(y, size));
    case FunctionOf(e) => ReadOnlyIfFitting(e, CType.Function(x), CType.Function(y));
    case Parens(e) => ReadOnlyIfFitting(e, x, y);
  }

  /** The type built is the one denoted exactly when every array size is below 2^31. */
  lemma BuiltAsDenotedExactly(d: Declarator, base: CType)
    requires SizesGiven(d)
    ensures Built(Pieces(d), base) == (Denoted(d, base), []) <==> SizesFit(d)
  {
    PiecesBuild(d, base);
    if SizesFit(d) {
      FittingRead(d, base);
    }
    if Read(d, base) == Denoted(d, base) {
      ReadOnlyIfFitting(d, base, base);
    }
  }

  /** So `int [0xffffffff]` comes out as `int *`. */
  lemma UnsizedBySize(base: CType)
    ensures Built(Pieces(ArrayOf(Nothing, 0xffff_ffff)), base).0 == Pointer(base)
  {
    PiecesBuild(ArrayOf(Nothing, 0xffff_ffff), base);
  }

  class Stack {
    var typeStack: array<int>
    var depth: nat

    ghost predicate Valid()
      reads this, typeStack
    {
      depth <= typeStack.Length && typeStack.Length > 0
    }

    ghost function Contents(): seq<int>
      requires Valid()
      reads this, typeStack
    {
      typeStack[..depth]
    }

    constructor ()
      ensures Valid() && Contents() == [] && fresh(typeStack)
    {
      typeStack := new int[80](_ => 0);
      depth := 0;
    }

    method PushType(tp: int)
      requires Valid()
      modifies this, typeStack
      ensures Valid() && Contents() == old(Contents()) + [tp] && (typeStack == old(typeStack) || fresh(typeStack))
    {
      if depth == typeStack.Length {
        Double();
      }
      typeStack[depth] := tp;
      depth := depth + 1;
    }

    method Double()
      requires Valid()
      modifies `typeStack
      ensures Valid() && fresh(typeStack) && typeStack.Length == 2 * old(typeStack.Length) && Contents() == old(Contents())
    {
      var bigger := new int[2 * typeStack.Length](_ => 0);
      var i := 0;
      while i < depth
        invariant 0 <= i <= depth <= typeStack.Length && bigger[..i] == typeStack[..i] && typeStack == old(typeStack)
      {
        bigger[i] := typeStack[i];
        i := i + 1;
      }
      typeStack := bigger;
    }

    method PopType() returns (tp: int)
      requires Valid()
      modifies `depth
      ensures Valid() && if old(Contents()) == [] then tp == TP_END && Contents() == []
                         else old(Contents()) == Contents() + [tp]
    {
      if depth > 0 {
        depth := depth - 1;
        tp := typeStack[depth];
      } else {
        tp := TP_END;
      }
    }

    /** The reductions of a declarator. */
    method ReduceDeclarator(d: Declarator)
      requires Valid()
      modifies this, typeStack
      ensures Valid() && Contents() == old(Contents()) + Pieces(d) && (typeStack == old(typeStack) || fresh(typeStack))
      decreases d
    {
      match d {
        case Nothing =>
          assert old(Contents()) + [] == old(Contents());
        case PointerTo(e) =>
          ReduceDeclarator(e);
          PushType(TP_POINTER);
        case ArrayOf(e, size) =>
          ReduceDeclarator(e);
          PushType(Truncated(size));
          PushType(TP_ARRAY);
        case FunctionOf(e) =>
          ReduceDeclarator(e);
          PushType(TP_FUNCTION);
        case Parens(e) =>
          ReduceDeclarator(e);
      }
    }

    /** The action of `ptype`: pop pieces, putting each around the type so far. */
    method FollowType(base: CType) returns (t: CType)
      requires Valid()
      modifies `depth
      ensures Valid() && (t, Contents()) == Built(old(Contents()), base)
    {
      hide Built;
      t := base;
      var done := false;
      ghost var whole := Built(Contents(), base);
      while !done
        invariant Valid() && (if done then (t, Contents()) == whole else Built(Contents(), t) == whole)
        decreases !done, depth
      {
        var piece := PopType();
        BuiltStep(Contents(), piece, t);
        if piece == TP_END {
          done := true;
        } else if piece == TP_POINTER {
          t := Pointer(t);
        } else if piece == TP_REFERENCE {
          t := CType.Reference(t);
        } else if piece == TP_ARRAY {
          t := PopArray(t);
        } else if piece == TP_FUNCTION {
          t := CType.Function(t);
        }
      }
    }

    /** The size under an array piece; none, like -1, makes a pointer. */
    method PopArray(t: CType) returns (r: CType)
      requires Valid()
      modifies `depth
      ensures Valid() && depth <= old(depth)
      ensures Built(old(Contents()) + [TP_ARRAY], t) == Built(Contents(), r)
    {
      hide Built;
      var size := PopType();
      BuiltArray(Contents(), size, t);
      BuiltStep([], TP_ARRAY, t);
      BuiltStep([], TP_POINTER, t);
      assert [] + [TP_ARRAY] == [TP_ARRAY];
      r := if size != -1 then CType.Array(t, size) else Pointer(t);
      BuiltStep(Contents(), TP_POINTER, r);
    }

    /** `ptype` on a declarator, the stack being empty as it is at the start of an expression: it is
        empty again, and the type is the one denoted exactly if the array sizes fit. */
    method ParseType(base: CType, d: Declarator) returns (t: CType)
      requires Valid() && Contents() == [] && SizesGiven(d)
      modifies this, typeStack
      ensures Valid() && Contents() == [] && (t == Denoted(d, base) <==> SizesFit(d))
    {
      ReduceDeclarator(d);
      assert Contents() == [] + Pieces(d) == Pieces(d);
      t := FollowType(base);
      PiecesBuild(d, base);
      BuiltAsDenotedExactly(d, base);
    }
  }
}

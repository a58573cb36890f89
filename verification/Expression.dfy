/** The flat expression vector of expression.h: opcodes, elements, the trees that the grammar
    recognises, and the two orders in which a tree is laid out in a vector. */
module Expression {

  /** enum exp_opcode, in its own order: opcodes below BINOP_END take two subexpressions. */
  type Opcode = op: int | 0 <= op < 55

  const BINOP_ADD: Opcode := 0
  const BINOP_SUB: Opcode := 1
  const BINOP_MUL: Opcode := 2
  const BINOP_DIV: Opcode := 3
  const BINOP_REM: Opcode := 4
  const BINOP_LSH: Opcode := 5
  const BINOP_RSH: Opcode := 6
  const BINOP_AND: Opcode := 7
  const BINOP_OR: Opcode := 8
  const BINOP_LOGAND: Opcode := 9
  const BINOP_LOGIOR: Opcode := 10
  const BINOP_LOGXOR: Opcode := 11
  const BINOP_EQUAL: Opcode := 12
  const BINOP_NOTEQUAL: Opcode := 13
  const BINOP_LESS: Opcode := 14
  const BINOP_GTR: Opcode := 15
  const BINOP_LEQ: Opcode := 16
  const BINOP_GEQ: Opcode := 17
  const BINOP_REPEAT: Opcode := 18
  const BINOP_ASSIGN: Opcode := 19
  const BINOP_COMMA: Opcode := 20
  const BINOP_SUBSCRIPT: Opcode := 21
  const BINOP_EXP: Opcode := 22
  const BINOP_MIN: Opcode := 23
  const BINOP_MAX: Opcode := 24
  const BINOP_SCOPE: Opcode := 25
  const STRUCTOP_MEMBER: Opcode := 26
  const STRUCTOP_MPTR: Opcode := 27
  const BINOP_END: Opcode := 28
  const BINOP_ASSIGN_MODIFY: Opcode := 29
  const TERNOP_COND: Opcode := 30
  const OP_LONG: Opcode := 31
  const OP_DOUBLE: Opcode := 32
  const OP_VAR_VALUE: Opcode := 33
  const OP_LAST: Opcode := 34
  const OP_REGISTER: Opcode := 35
  const OP_INTERNALVAR: Opcode := 36
  const OP_FUNCALL: Opcode := 37
  const OP_STRING: Opcode := 38
  const UNOP_CAST: Opcode := 39
  const UNOP_MEMVAL: Opcode := 40
  const UNOP_NEG: Opcode := 41
  const UNOP_ZEROP: Opcode := 42
  const UNOP_LOGNOT: Opcode := 43
  const UNOP_IND: Opcode := 44
  const UNOP_ADDR: Opcode := 45
  const UNOP_PREINCREMENT: Opcode := 46
  const UNOP_POSTINCREMENT: Opcode := 47
  const UNOP_PREDECREMENT: Opcode := 48
  const UNOP_POSTDECREMENT: Opcode := 49
  const UNOP_SIZEOF: Opcode := 50
  const STRUCTOP_STRUCT: Opcode := 51
  const STRUCTOP_PTR: Opcode := 52
  const OP_THIS: Opcode := 53
  const OP_SCOPE: Opcode := 54

  predicate IsBinary(op: Opcode) { op < BINOP_END }
  predicate IsUnary(op: Opcode) { UNOP_NEG <= op <= UNOP_SIZEOF }

  datatype CType =
    | Base(name: string)
    | Pointer(target: CType)
    | Reference(target: CType)
    | Array(target: CType, size: int)
    | Function(target: CType)

  /** union exp_element.  Strings occupy as many elements as they need, eight bytes to each. */
  datatype Elem =
    | Op(op: Opcode)
    | Num(n: int)
    | Dbl(d: real)
    | Sym(name: string)
    | Var(name: string)
    | Ty(t: CType)
    | Str(bytes: seq<char>)

  const ELEM_SIZE: int := 8
  const NUL: char := '\0'

  // ----- strings in the vector -----

  function Pack(bytes: seq<char>): (r: seq<Elem>)
    ensures |r| == (|bytes| + ELEM_SIZE - 1) / ELEM_SIZE
    ensures forall i :: 0 <= i < |r| ==> r[i].Str?
  {
    if bytes == [] then []
    else if |bytes| <= ELEM_SIZE then [Str(bytes)]
    else [Str(bytes[..ELEM_SIZE])] + Pack(bytes[ELEM_SIZE..])
  }

  /** The elements a string takes up, with its terminating NUL. */
  function Chunks(s: string): (r: seq<Elem>)
    ensures |r| == (|s| + ELEM_SIZE) / ELEM_SIZE
  {
    Pack(s + [NUL])
  }

  predicate NulFree(s: string) {
    forall i :: 0 <= i < |s| ==> s[i] != NUL
  }

  /** Bytes before the first NUL. */
  function Scan(bytes: seq<char>): (n: nat)
    ensures n <= |bytes|
  {
    if bytes == [] || bytes[0] == NUL then 0 else 1 + Scan(bytes[1..])
  }

  /** The C string that starts in the element at `i` and reads on through the following ones. */
  function CString(v: seq<Elem>, i: nat): string
    decreases |v| - i
  {
    if i >= |v| || !v[i].Str? then []
    else if Scan(v[i].bytes) < |v[i].bytes| then v[i].bytes[..Scan(v[i].bytes)]
    else v[i].bytes + CString(v, i + 1)
  }

  // ----- trees -----

  datatype Tree =
    | Const(cop: Opcode, ty: CType, val: Elem)     // OP_LONG, OP_DOUBLE
    | Leaf(lop: Opcode, arg: Elem)                 // OP_VAR_VALUE, OP_LAST, OP_REGISTER, OP_INTERNALVAR
    | StrLit(s: string)
    | Scope(ty: CType, s: string)
    | This
    | Unary(uop: Opcode, e: Tree)
    | Typed(top: Opcode, ty: CType, e: Tree)       // UNOP_CAST, UNOP_MEMVAL
    | Binary(bop: Opcode, a: Tree, b: Tree)
    | AssignModify(bop: Opcode, a: Tree, b: Tree)
    | Cond(c: Tree, a: Tree, b: Tree)
    | Field(fop: Opcode, s: string, e: Tree)       // STRUCTOP_STRUCT, STRUCTOP_PTR
    | Call(f: Tree, args: seq<Tree>)

  /** The elements of the operation itself; operands that are not subexpressions sit between two
      copies of the opcode, so that the group can be recognised from either end. */
  function Head(t: Tree): (r: seq<Elem>)
    ensures r != []
  {
    match t
    case Const(op, ty, v) => [Op(op), Ty(ty), v, Op(op)]
    case Leaf(op, arg) => [Op(op), arg, Op(op)]
    case StrLit(s) => [Op(OP_STRING)] + Chunks(s) + [Num(|s|), Op(OP_STRING)]
    case Scope(ty, s) => [Op(OP_SCOPE), Ty(ty)] + Chunks(s) + [Num(|s|), Op(OP_SCOPE)]
    case This => [Op(OP_THIS), Op(OP_THIS)]
    case Unary(op, _) => [Op(op)]
    case Typed(op, ty, _) => [Op(op), Ty(ty), Op(op)]
    case Binary(op, _, _) => [Op(op)]
    case AssignModify(op, _, _) => [Op(BINOP_ASSIGN_MODIFY), Op(op), Op(BINOP_ASSIGN_MODIFY)]
    case Cond(_, _, _) => [Op(TERNOP_COND)]
    case Field(op, s, _) => [Op(op)] + Chunks(s) + [Num(|s|), Op(op)]
    case Call(_, args) => [Op(OP_FUNCALL), Num(|args|), Op(OP_FUNCALL)]
  }

  function Args(t: Tree): (r: seq<Tree>)
    ensures forall i :: 0 <= i < |r| ==> r[i] < t
  {
    match t
    case Unary(_, e) => [e]
    case Typed(_, _, e) => [e]
    case Binary(_, a, b) => [a, b]
    case AssignModify(_, a, b) => [a, b]
    case Cond(c, a, b) => [c, a, b]
    case Field(_, _, e) => [e]
    case Call(f, args) => [f] + args
    case _ => []
  }

  /** The operation's own parts fit together; this says nothing of its subexpressions. */
  predicate HeadOk(t: Tree) {
    match t
    case Const(op, _, v) => (op == OP_LONG && v.Num?) || (op == OP_DOUBLE && v.Dbl?)
    case Leaf(op, arg) =>
      || (op == OP_VAR_VALUE && arg.Sym?)
      || ((op == OP_LAST || op == OP_REGISTER) && arg.Num?)
      || (op == OP_INTERNALVAR && arg.Var?)
    case StrLit(s) => NulFree(s)
    case Scope(_, s) => NulFree(s)
    case This => true
    case Unary(op, _) => IsUnary(op)
    case Typed(op, _, _) => op == UNOP_CAST || op == UNOP_MEMVAL
    case Binary(op, _, _) => IsBinary(op)
    case AssignModify(op, _, _) => IsBinary(op)
    case Cond(_, _, _) => true
    case Field(op, s, _) => (op == STRUCTOP_STRUCT || op == STRUCTOP_PTR) && NulFree(s)
    case Call(_, _) => true
  }

  predicate WellFormed(t: Tree) {
    HeadOk(t) && forall i :: 0 <= i < |Args(t)| ==> WellFormed(Args(t)[i])
  }

  // ----- the two layouts -----

  /** Arguments first, operation last: the order in which the grammar's actions emit. */
  function Suffix(t: Tree): (r: seq<Elem>)
    ensures r != []
    decreases t, 1
  {
    SuffixAll(t, Args(t)) + Head(t)
  }

  function SuffixAll(ghost parent: Tree, ts: seq<Tree>): seq<Elem>
    requires forall i :: 0 <= i < |ts| ==> ts[i] < parent
    decreases parent, 0, |ts|
  {
    if ts == [] then [] else SuffixAll(parent, ts[..|ts| - 1]) + Suffix(ts[|ts| - 1])
  }

  /** Operation first: the order in which the vector is executed and printed. */
  function Prefix(t: Tree): (r: seq<Elem>)
    ensures r != []
    decreases t, 1
  {
    Head(t) + PrefixAll(t, Args(t))
  }

  function PrefixAll(ghost parent: Tree, ts: seq<Tree>): seq<Elem>
    requires forall i :: 0 <= i < |ts| ==> ts[i] < parent
    decreases parent, 0, |ts|
  {
    if ts == [] then [] else PrefixAll(parent, ts[..|ts| - 1]) + Prefix(ts[|ts| - 1])
  }

  /** `part` lies in `v` from index `at`. */
  predicate At(v: seq<Elem>, at: nat, part: seq<Elem>) {
    at + |part| <= |v| && v[at..at + |part|] == part
  }

  /** `part` lies in `v` just before index `end`. */
  predicate EndsAt(v: seq<Elem>, end: nat, part: seq<Elem>) {
    |part| <= end <= |v| && v[end - |part|..end] == part
  }

  lemma AtSplit(v: seq<Elem>, at: nat, x: seq<Elem>, y: seq<Elem>)
    requires At(v, at, x + y)
    ensures At(v, at, x) && At(v, at + |x|, y)
  {
    assert v[at..at + |x|] == (x + y)[..|x|];
    assert v[at + |x|..at + |x| + |y|] == (x + y)[|x|..];
  }

  lemma EndsAtSplit(v: seq<Elem>, end: nat, x: seq<Elem>, y: seq<Elem>)
    requires EndsAt(v, end, x + y)
    ensures EndsAt(v, end, y) && EndsAt(v, end - |y|, x)
  {
    var s := end - |x + y|;
    assert v[s..end] == x + y;
    assert v[s..s + |x|] == (x + y)[..|x|];
    assert v[s + |x|..end] == (x + y)[|x|..];
  }

  // ----- reading strings back -----

  lemma {:induction false} ScanStops(s: string, rest: seq<char>)
    requires NulFree(s)
    ensures Scan(s + [NUL] + rest) == |s|
  {
    if s != [] {
      assert (s + [NUL] + rest)[1..] == s[1..] + [NUL] + rest;
      ScanStops(s[1..], rest);
    }
  }

  lemma {:induction false} ScanRuns(s: string)
    requires NulFree(s)
    ensures Scan(s) == |s|
  {
    if s != [] {
      ScanRuns(s[1..]);
    }
  }

  /** A packed string reads back as itself, whatever follows it. */
  lemma {:induction false} CStringOfChunks(v: seq<Elem>, i: nat, s: string)
    requires NulFree(s) && At(v, i, Chunks(s))
    ensures CString(v, i) == s
    decreases |s|
  {
    var b := s + [NUL];
    assert v[i] == v[i..i + |Chunks(s)|][0];
    if |b| <= ELEM_SIZE {
      ScanStops(s, []);
      assert s + [NUL] + [] == b;
      assert b[..|s|] == s;
    } else {
      var first, rest := s[..ELEM_SIZE], s[ELEM_SIZE..];
      assert b[..ELEM_SIZE] == first && b[ELEM_SIZE..] == rest + [NUL];
      assert v[i].bytes == first;
      ScanRuns(first);
      AtSplit(v, i, [Str(first)], Chunks(rest));
      CStringOfChunks(v, i + 1, rest);
    }
  }

  /** A string among the elements of an operation, with `before` ahead of it. */
  lemma CStringInHead(v: seq<Elem>, at: nat, before: seq<Elem>, s: string, after: seq<Elem>)
    requires NulFree(s) && At(v, at, before + Chunks(s) + after)
    ensures CString(v, at + |before|) == s
  {
    hide Chunks;
    AtSplit(v, at, before + Chunks(s), after);
    AtSplit(v, at, before, Chunks(s));
    CStringOfChunks(v, at + |before|, s);
  }

  // ----- parts in suffix order -----

  lemma SuffixAllNone(parent: Tree, ts: seq<Tree>)
    requires forall j :: 0 <= j < |ts| ==> ts[j] < parent
    ensures SuffixAll(parent, ts[..0]) == []
  {
  }

  lemma SuffixAllStep(parent: Tree, ts: seq<Tree>, i: nat)
    requires forall j :: 0 <= j < |ts| ==> ts[j] < parent
    requires i < |ts|
    ensures SuffixAll(parent, ts[..i + 1]) == SuffixAll(parent, ts[..i]) + Suffix(ts[i])
  {
    hide Suffix;
    TakeTake(ts, i + 1, i);
  }

  // ----- finding the parts of a prefix vector -----

  lemma PrefixParts(v: seq<Elem>, at: nat, t: Tree)
    requires At(v, at, Prefix(t))
    ensures At(v, at, Head(t)) && At(v, at + |Head(t)|, PrefixAll(t, Args(t)))
    ensures |Prefix(t)| == |Head(t)| + |PrefixAll(t, Args(t))|
  {
    hide Head, Args, PrefixAll;
    AtSplit(v, at, Head(t), PrefixAll(t, Args(t)));
  }

  lemma PrefixAllOfOne(parent: Tree, a: Tree)
    requires a < parent
    ensures PrefixAll(parent, [a]) == Prefix(a)
  {
    hide Prefix;
    assert [a][..0] == [];
  }

  lemma PrefixAllOfTwo(parent: Tree, a: Tree, b: Tree)
    requires a < parent && b < parent
    ensures PrefixAll(parent, [a, b]) == Prefix(a) + Prefix(b)
  {
    hide Prefix;
    assert [a, b][..1] == [a];
    PrefixAllOfOne(parent, a);
  }

  lemma PrefixAllOfThree(parent: Tree, a: Tree, b: Tree, c: Tree)
    requires a < parent && b < parent && c < parent
    ensures PrefixAll(parent, [a, b, c]) == Prefix(a) + Prefix(b) + Prefix(c)
  {
    hide Prefix;
    assert [a, b, c][..2] == [a, b];
    PrefixAllOfTwo(parent, a, b);
  }

  lemma SliceAt<T>(s: seq<T>, lo: nat, hi: nat, k: nat)
    requires lo + k < hi <= |s|
    ensures s[lo..hi][k] == s[lo + k]
  {
  }

  lemma TakeTake<T>(s: seq<T>, n: nat, i: nat)
    requires i <= n <= |s|
    ensures s[..n][..i] == s[..i]
  {
  }

  /** The i-th part starts where the first i end. */
  lemma {:induction false} PrefixPartAt(v: seq<Elem>, at: nat, parent: Tree, ts: seq<Tree>, i: nat)
    requires forall j :: 0 <= j < |ts| ==> ts[j] < parent
    requires At(v, at, PrefixAll(parent, ts)) && i < |ts|
    ensures At(v, at + |PrefixAll(parent, ts[..i])|, Prefix(ts[i]))
    ensures PrefixAll(parent, ts[..i + 1]) == PrefixAll(parent, ts[..i]) + Prefix(ts[i])
    decreases |ts|
  {
    hide Prefix;
    var before, last := ts[..|ts| - 1], ts[|ts| - 1];
    AtSplit(v, at, PrefixAll(parent, before), Prefix(last));
    if i == |ts| - 1 {
      assert ts[..i + 1] == ts && ts[..i] == before;
    } else {
      PrefixPartAt(v, at, parent, before, i);
      TakeTake(ts, |ts| - 1, i);
      TakeTake(ts, |ts| - 1, i + 1);
    }
  }
}

/**
 Lazy tensors of `src/engine/db.rs` and `evaluate_expression` of `src/engine/kernels.rs`, over any tensor
 type and any deterministic kernels: exactly which steps can tell whether a lazy name has been evaluated.
 */
module LazyEvaluation {
  import opened Common

  /** The kernels an expression may call; each may refuse its operands. */
  datatype Kernels<!T> = Kernels(
    add: (T, T) -> Result<T>, sub: (T, T) -> Result<T>, multiply: (T, T) -> Result<T>, divide: (T, T) -> Result<T>,
    matmul: (T, T) -> Result<T>, scalarMul: (T, real) -> Result<T>, normalize: T -> Result<T>, sum: T -> Result<T>,
    mean: T -> Result<T>, stdev: T -> Result<T>, variance: T -> Result<T>, eager: (Call, seq<T>) -> Result<T>)

  datatype Expression<T> =
    | Literal(tensor: T)
    | Add(left: Expression<T>, right: Expression<T>)
    | Sub(left: Expression<T>, right: Expression<T>)
    | Multiply(left: Expression<T>, right: Expression<T>)
    | Divide(left: Expression<T>, right: Expression<T>)
    | MatMul(left: Expression<T>, right: Expression<T>)
    | ScalarMul(inner: Expression<T>, factor: real)
    | Normalize(inner: Expression<T>)
    | Sum(inner: Expression<T>)
    | Mean(inner: Expression<T>)
    | Stdev(inner: Expression<T>)
    | Variance(inner: Expression<T>)

  function Bind1<T>(r: Result<T>, f: T -> Result<T>): Result<T> {
    match r case Ok(v) => f(v) case Err(e) => Err(e)
  }

  /** The left operand is evaluated, and may refuse, first. */
  function Bind2<T>(r: Result<T>, s: Result<T>, f: (T, T) -> Result<T>): Result<T> {
    match r
    case Err(e) => Err(e)
    case Ok(v) => match s case Err(e) => Err(e) case Ok(w) => f(v, w)
  }

  function Eval<T>(k: Kernels<T>, e: Expression<T>): Result<T> {
    match e
    case Literal(t) => Ok(t)
    case Add(l, r) => Bind2(Eval(k, l), Eval(k, r), k.add)
    case Sub(l, r) => Bind2(Eval(k, l), Eval(k, r), k.sub)
    case Multiply(l, r) => Bind2(Eval(k, l), Eval(k, r), k.multiply)
    case Divide(l, r) => Bind2(Eval(k, l), Eval(k, r), k.divide)
    case MatMul(l, r) => Bind2(Eval(k, l), Eval(k, r), k.matmul)
    case ScalarMul(i, s) => Bind1(Eval(k, i), v => k.scalarMul(v, s))
    case Normalize(i) => Bind1(Eval(k, i), k.normalize)
    case Sum(i) => Bind1(Eval(k, i), k.sum)
    case Mean(i) => Bind1(Eval(k, i), k.mean)
    case Stdev(i) => Bind1(Eval(k, i), k.stdev)
    case Variance(i) => Bind1(Eval(k, i), k.variance)
  }

  // ---------------------------------------------------------------- the instance

  datatype Kind = Normal | Strict | Lazy
  datatype NameEntry = NameEntry(id: nat, kind: Kind)

  datatype BinaryOp = OpAdd | OpSubtract | OpMultiply | OpDivide | OpCorrelate | OpSimilarity | OpDistance | OpCovariance
  datatype UnaryOp =
    | OpScale(factor: real) | OpNormalize | OpTranspose | OpFlatten | OpSum
    | OpMean | OpStdev | OpVariance | OpMedian | OpQuantile(p: real)

  /** The eager operations; the last stands for all that take the kind of their first operand. */
  datatype Call = UnaryCall(uop: UnaryOp) | BinaryCall(bop: BinaryOp) | MatMulCall | StackCall(axis: nat) | OtherCall(code: nat)

  datatype Instance<T> = Instance(
    names: map<string, NameEntry>, lazyStore: map<nat, Expression<T>>, store: map<nat, T>, nextId: nat)

  /** Identifiers are never reused, and an identifier keeps its kind. */
  ghost predicate Valid<T>(s: Instance<T>) {
    (forall m :: m in s.names ==> s.names[m].id < s.nextId) &&
    (forall id :: id in s.store ==> id < s.nextId) &&
    (forall id :: id in s.lazyStore ==> id < s.nextId && id !in s.store) &&
    (forall m, n :: m in s.names && n in s.names && s.names[m].id == s.names[n].id ==> s.names[m].kind == s.names[n].kind)
  }

  /** `get_expression_or_literal`. */
  function Capture<T>(s: Instance<T>, name: string): Result<Expression<T>> {
    if name !in s.names then Err("name not found")
    else
      var entry := s.names[name];
      if entry.kind == Lazy then
        if entry.id in s.lazyStore then Ok(s.lazyStore[entry.id]) else Err("Lazy expression missing")
      else
        if entry.id in s.store then Ok(Literal(s.store[entry.id])) else Err("Tensor not found")
  }

  /** `get`: the stored tensor, whatever the kind of the name. */
  function Read<T>(s: Instance<T>, name: string): Result<T> {
    if name !in s.names then Err("name not found")
    else if s.names[name].id !in s.store then Err("Tensor not found")
    else Ok(s.store[s.names[name].id])
  }

  /** The operands of an eager operation, looked up one after another. */
  function ReadAll<T>(s: Instance<T>, operands: seq<string>): Result<seq<T>> {
    if operands == [] then Ok([])
    else
      match Read(s, operands[0])
      case Err(e) => Err(e)
      case Ok(v) => match ReadAll(s, operands[1..]) case Err(e) => Err(e) case Ok(vs) => Ok([v] + vs)
  }

  function KindOf<T>(s: Instance<T>, name: string): Kind {
    if name in s.names then s.names[name].kind else Normal
  }

  /** An operation on several tensors is strict when one of them is; any other inherits its first operand's kind. */
  function ResultKind<T>(s: Instance<T>, call: Call, operands: seq<string>): Kind {
    if call.BinaryCall? || call.MatMulCall? || call.StackCall? then
      if exists i :: 0 <= i < |operands| && KindOf(s, operands[i]) == Strict then Strict else Normal
    else if operands == [] then Normal else KindOf(s, operands[0])
  }

  /** The result tensor; what a kernel refuses is told apart from an operand that is not there. */
  function EagerValue<T>(k: Kernels<T>, s: Instance<T>, operands: seq<string>, call: Call): Result<T> {
    match ReadAll(s, operands)
    case Err(e) => Err(e)
    case Ok(vs) => match k.eager(call, vs) case Err(e) => Err("Invalid operation: " + e) case Ok(t) => Ok(t)
  }

  function BinaryExpression<T>(op: BinaryOp, l: Expression<T>, r: Expression<T>): Result<Expression<T>> {
    match op
    case OpAdd => Ok(Add(l, r))
    case OpSubtract => Ok(Sub(l, r))
    case OpMultiply => Ok(Multiply(l, r))
    case OpDivide => Ok(Divide(l, r))
    case _ => Err("Lazy op not supported")
  }

  function UnaryExpression<T>(op: UnaryOp, e: Expression<T>): Result<Expression<T>> {
    match op
    case OpScale(s) => Ok(ScalarMul(e, s))
    case OpNormalize => Ok(Normalize(e))
    case OpSum => Ok(Sum(e))
    case OpMean => Ok(Mean(e))
    case OpStdev => Ok(Stdev(e))
    case OpVariance => Ok(Variance(e))
    case _ => Err("Lazy op not supported")
  }

  function RegisterLazy<T>(s: Instance<T>, name: string, e: Expression<T>): Instance<T> {
    s.(names := s.names[name := NameEntry(s.nextId, Lazy)], lazyStore := s.lazyStore[s.nextId := e], nextId := s.nextId + 1)
  }

  function StoreTensor<T>(s: Instance<T>, name: string, t: T, kind: Kind): Instance<T> {
    s.(names := s.names[name := NameEntry(s.nextId, kind)], store := s.store[s.nextId := t], nextId := s.nextId + 1)
  }

  function Rename<T>(s: Instance<T>, name: string, source: string): Instance<T>
    requires source in s.names
  {
    s.(names := s.names[name := s.names[source]])
  }

  /** `remove_tensor`: the name goes, and so does the tensor it reads, whoever else reads it. */
  function Drop<T>(s: Instance<T>, name: string): Instance<T>
    requires name in s.names
  {
    s.(names := s.names - {name}, store := s.store - {s.names[name].id})
  }

  datatype Op<T> =
    | Insert(name: string, tensor: T, kind: Kind)
    | Alias(name: string, source: string)
    | Remove(name: string)
    | LazyBinary(name: string, left: string, right: string, bop: BinaryOp)
    | LazyMatMul(name: string, left: string, right: string)
    | LazyUnary(name: string, input: string, uop: UnaryOp)
    | Evaluate(name: string)
    | Get(name: string)
    | Eager(name: string, operands: seq<string>, call: Call)

  /** One call; an error leaves the instance as it was. */
  function Apply<T>(k: Kernels<T>, s: Instance<T>, op: Op<T>): Result<Instance<T>> {
    match op
    case Insert(name, t, kind) => Ok(StoreTensor(s, name, t, kind))
    case Alias(name, source) =>
      if source in s.names then Ok(Rename(s, name, source)) else Err("name not found")
    case Remove(name) =>
      if name in s.names then Ok(Drop(s, name)) else Ok(s)
    case LazyBinary(name, left, right, bop) => (
      match Capture(s, left)
      case Err(e) => Err(e)
      case Ok(l) =>
        match Capture(s, right)
        case Err(e) => Err(e)
        case Ok(r) =>
          match BinaryExpression(bop, l, r)
          case Err(e) => Err(e)
          case Ok(x) => Ok(RegisterLazy(s, name, x)))
    case LazyMatMul(name, left, right) => (
      match Capture(s, left)
      case Err(e) => Err(e)
      case Ok(l) =>
        match Capture(s, right)
        case Err(e) => Err(e)
        case Ok(r) => Ok(RegisterLazy(s, name, MatMul(l, r))))
    case LazyUnary(name, input, uop) => (
      match Capture(s, input)
      case Err(e) => Err(e)
      case Ok(i) =>
        match UnaryExpression(uop, i)
        case Err(e) => Err(e)
        case Ok(x) => Ok(RegisterLazy(s, name, x)))
    case Evaluate(name) => (
      match Capture(s, name)
      case Err(e) => if name in s.names && s.names[name].kind != Lazy then Ok(s) else Err(e)
      case Ok(x) =>
        if s.names[name].kind != Lazy then Ok(s)
        else match Eval(k, x)
          case Err(e) => Err(e)
          case Ok(t) => Ok(StoreTensor(s, name, t, Normal)))
    case Get(name) => (
      match Read(s, name) case Err(e) => Err(e) case Ok(_) => Ok(s))
    case Eager(name, operands, call) => (
      match EagerValue(k, s, operands, call)
      case Err(e) => Err(e)
      case Ok(t) => Ok(StoreTensor(s, name, t, ResultKind(s, call, operands))))
  }

  /** What the caller sees: an error, the tensor read, or that the call succeeded. */
  function Answer<T>(k: Kernels<T>, s: Instance<T>, op: Op<T>): Result<Option<T>> {
    match Apply(k, s, op)
    case Err(e) => Err(e)
    case Ok(_) => if op.Get? then Ok(Some(Read(s, op.name).value)) else Ok(None)
  }

  function After<T>(k: Kernels<T>, s: Instance<T>, op: Op<T>): Instance<T> {
    match Apply(k, s, op) case Ok(t) => t case Err(_) => s
  }

  function Run<T>(k: Kernels<T>, s: Instance<T>, ops: seq<Op<T>>): Instance<T>
    decreases |ops|
  {
    if ops == [] then s else Run(k, After(k, s, ops[0]), ops[1..])
  }

  // ---------------------------------------------------------------- what a name denotes

  /** The operand a later definition would take from `name`, as a value: its own error, or what it evaluates to. */
  function Denotes<T>(k: Kernels<T>, s: Instance<T>, name: string): Result<Result<T>> {
    match Capture(s, name) case Err(e) => Err(e) case Ok(x) => Ok(Eval(k, x))
  }

  ghost predicate SameId<T>(s: Instance<T>, x: string, y: string) {
    x in s.names && y in s.names && s.names[x].id == s.names[y].id
  }

  /** A lazy name that has an expression and no tensor yet. */
  predicate Pending<T>(s: Instance<T>, m: string) {
    m in s.names && s.names[m].kind == Lazy && s.names[m].id in s.lazyStore
  }

  lemma StoreKeepsValid<T>(s: Instance<T>, name: string, tensor: T, kind: Kind)
    requires Valid(s)
    ensures Valid(StoreTensor(s, name, tensor, kind))
  {
  }

  lemma RegisterKeepsValid<T>(s: Instance<T>, name: string, e: Expression<T>)
    requires Valid(s)
    ensures Valid(RegisterLazy(s, name, e))
  {
  }

  lemma RenameKeepsValid<T>(s: Instance<T>, name: string, source: string)
    requires Valid(s) && source in s.names
    ensures Valid(Rename(s, name, source))
  {
  }

  lemma DropKeepsValid<T>(s: Instance<T>, name: string)
    requires Valid(s) && name in s.names
    ensures Valid(Drop(s, name))
  {
  }

  lemma ApplyKeepsValid<T>(k: Kernels<T>, s: Instance<T>, op: Op<T>)
    requires Valid(s)
    ensures Valid(After(k, s, op))
  {
    if Apply(k, s, op).Ok? {
      match op
      case Insert(name, tensor, kind) => StoreKeepsValid(s, name, tensor, kind);
      case Alias(name, source) => RenameKeepsValid(s, name, source);
      case Remove(name) =>
        if name in s.names {
          DropKeepsValid(s, name);
        }
      case LazyUnary(name, input, uop) => RegisterKeepsValid(s, name, UnaryExpression(uop, Capture(s, input).value).value);
      case LazyBinary(name, left, right, bop) =>
        RegisterKeepsValid(s, name, BinaryExpression(bop, Capture(s, left).value, Capture(s, right).value).value);
      case LazyMatMul(name, left, right) =>
        RegisterKeepsValid(s, name, MatMul(Capture(s, left).value, Capture(s, right).value));
      case Evaluate(name) =>
        if s.names[name].kind == Lazy {
          StoreKeepsValid(s, name, Eval(k, Capture(s, name).value).value, Normal);
        }
      case Get(name) =>
      case Eager(name, operands, call) =>
        StoreKeepsValid(s, name, EagerValue(k, s, operands, call).value, ResultKind(s, call, operands));
    }
  }

  lemma RegisterDenotes<T>(k: Kernels<T>, s: Instance<T>, name: string, e: Expression<T>, m: string)
    requires Valid(s)
    ensures Denotes(k, RegisterLazy(s, name, e), m) == if m == name then Ok(Eval(k, e)) else Denotes(k, s, m)
  {
  }

  lemma StoreDenotes<T>(k: Kernels<T>, s: Instance<T>, name: string, tensor: T, kind: Kind, m: string)
    requires Valid(s)
    ensures m != name ==> Denotes(k, StoreTensor(s, name, tensor, kind), m) == Denotes(k, s, m)
    ensures Denotes(k, StoreTensor(s, name, tensor, kind), name) == if kind == Lazy then Err("Lazy expression missing") else Ok(Ok(tensor))
  {
  }

  lemma RenameDenotes<T>(k: Kernels<T>, s: Instance<T>, name: string, source: string, m: string)
    requires Valid(s) && source in s.names
    ensures Denotes(k, Rename(s, name, source), m) == Denotes(k, s, if m == name then source else m)
  {
  }

  lemma DropDenotes<T>(k: Kernels<T>, s: Instance<T>, name: string, m: string)
    requires Valid(s) && name in s.names && m != name
    ensures Denotes(k, Drop(s, name), m)
            == if SameId(s, m, name) && s.names[m].kind != Lazy then Err("Tensor not found") else Denotes(k, s, m)
  {
  }

  /** What evaluating does, seen from the state alone. */
  lemma EvaluateIsStore<T>(k: Kernels<T>, s: Instance<T>, name: string)
    ensures After(k, s, Evaluate(name)) == s ||
            (name in s.names && s.names[name].kind == Lazy && Denotes(k, s, name).Ok? && Denotes(k, s, name).value.Ok? &&
             After(k, s, Evaluate(name)) == StoreTensor(s, name, Denotes(k, s, name).value.value, Normal))
  {
  }

  /** Evaluating a name changes no denotation, its own included. */
  lemma EvaluateChangesNothing<T>(k: Kernels<T>, s: Instance<T>, name: string, m: string)
    requires Valid(s)
    ensures Denotes(k, After(k, s, Evaluate(name)), m) == Denotes(k, s, m)
    ensures After(k, s, Evaluate(name)).names.Keys == s.names.Keys
  {
    EvaluateIsStore(k, s, name);
    if After(k, s, Evaluate(name)) != s {
      StoreDenotes(k, s, name, Denotes(k, s, name).value.value, Normal, m);
    }
  }

  // ---------------------------------------------------------------- with and without evaluation

  ghost predicate SameMeanings<T>(k: Kernels<T>, s: Instance<T>, t: Instance<T>) {
    s.names.Keys == t.names.Keys && forall m :: m in s.names ==> Denotes(k, s, m) == Denotes(k, t, m)
  }

  /** Unevaluated in `s` alone. */
  predicate Hidden<T>(s: Instance<T>, t: Instance<T>, m: string) {
    Pending(s, m) && !Pending(t, m)
  }

  /** A name reads the same in both, unless it is unevaluated in the first alone: then only the second has its tensor. */
  ghost predicate ReadsAhead<T>(s: Instance<T>, t: Instance<T>, m: string)
    requires m in s.names && m in t.names
  {
    if Hidden(s, t, m) then t.names[m].kind == Normal && Read(t, m).Ok?
    else s.names[m].kind == t.names[m].kind && Pending(s, m) == Pending(t, m) && Read(s, m) == Read(t, m)
  }

  ghost predicate AllReadAhead<T>(s: Instance<T>, t: Instance<T>) {
    s.names.Keys == t.names.Keys && forall m :: m in s.names ==> ReadsAhead(s, t, m)
  }

  /** Evaluating separates names that shared an expression; no others are separated, and none joined. */
  ghost predicate SharesAhead<T>(s: Instance<T>, t: Instance<T>) {
    (forall x, y :: SameId(s, x, y) && !Pending(s, x) ==> SameId(t, x, y)) &&
    (forall x, y :: SameId(t, x, y) ==> SameId(s, x, y))
  }

  /** `t` has evaluated some names that are still lazy in `s`; nothing else tells them apart. */
  ghost predicate Ahead<T>(k: Kernels<T>, s: Instance<T>, t: Instance<T>) {
    Valid(s) && Valid(t) && SameMeanings(k, s, t) && AllReadAhead(s, t) && SharesAhead(s, t)
  }

  lemma IsAheadOfItself<T>(k: Kernels<T>, s: Instance<T>)
    requires Valid(s)
    ensures Ahead(k, s, s)
  {
  }

  lemma AheadDenotes<T>(k: Kernels<T>, s: Instance<T>, t: Instance<T>, m: string)
    requires Ahead(k, s, t)
    ensures Denotes(k, s, m) == Denotes(k, t, m)
  {
    if m in s.names {
    }
  }

  lemma PendingReadsNothing<T>(s: Instance<T>, m: string)
    requires Valid(s) && Pending(s, m)
    ensures Read(s, m) == Err("Tensor not found")
  {
  }

  lemma PendingIsShared<T>(s: Instance<T>, x: string, y: string)
    requires Valid(s) && SameId(s, x, y)
    ensures Pending(s, x) == Pending(s, y) && s.names[x].kind == s.names[y].kind && Read(s, x) == Read(s, y)
  {
  }

  lemma StoreReads<T>(s: Instance<T>, name: string, tensor: T, kind: Kind, m: string)
    requires Valid(s)
    ensures var u := StoreTensor(s, name, tensor, kind);
            && Read(u, m) == (if m == name then Ok(tensor) else Read(s, m))
            && Pending(u, m) == (m != name && Pending(s, m))
  {
  }

  lemma RegisterReads<T>(s: Instance<T>, name: string, e: Expression<T>, m: string)
    requires Valid(s)
    ensures var u := RegisterLazy(s, name, e);
            && Read(u, m) == (if m == name then Err("Tensor not found") else Read(s, m))
            && Pending(u, m) == (m == name || Pending(s, m))
  {
  }

  lemma RenameReads<T>(s: Instance<T>, name: string, source: string, m: string)
    requires source in s.names
    ensures var u, n := Rename(s, name, source), if m == name then source else m;
            Read(u, m) == Read(s, n) && Pending(u, m) == Pending(s, n)
  {
  }

  lemma DropReads<T>(s: Instance<T>, name: string, m: string)
    requires name in s.names && m != name
    ensures Read(Drop(s, name), m) == if SameId(s, m, name) then Err("Tensor not found") else Read(s, m)
    ensures Pending(Drop(s, name), m) == Pending(s, m)
  {
  }

  lemma EvaluateStaysAhead<T>(k: Kernels<T>, s: Instance<T>, t: Instance<T>, name: string)
    requires Ahead(k, s, t)
    ensures Ahead(k, s, After(k, t, Evaluate(name)))
  {
    EvaluateIsStore(k, t, name);
    var u := After(k, t, Evaluate(name));
    if u != t {
      EvaluateKeepsAhead(k, s, t, name, Denotes(k, t, name).value.value);
    }
  }

  lemma EvaluateKeepsAhead<T>(k: Kernels<T>, s: Instance<T>, t: Instance<T>, name: string, v: T)
    requires Ahead(k, s, t) && Pending(t, name) && Denotes(k, t, name) == Ok(Ok(v))
    ensures Ahead(k, s, StoreTensor(t, name, v, Normal))
  {
    var u := StoreTensor(t, name, v, Normal);
    StoreKeepsValid(t, name, v, Normal);
    forall m | m in s.names
      ensures Denotes(k, s, m) == Denotes(k, u, m)
    {
      StoreDenotes(k, t, name, v, Normal, m);
    }
    EvaluateKeepsReads(s, t, name, v);
    EvaluateKeepsShares(s, t, name, v);
  }

  lemma EvaluateKeepsReads<T>(s: Instance<T>, t: Instance<T>, name: string, v: T)
    requires Valid(t) && AllReadAhead(s, t) && Pending(t, name)
    ensures AllReadAhead(s, StoreTensor(t, name, v, Normal))
  {
    var u := StoreTensor(t, name, v, Normal);
    forall m | m in s.names
      ensures ReadsAhead(s, u, m)
    {
      assert ReadsAhead(s, t, m);
      StoreReads(t, name, v, Normal, m);
    }
  }

  lemma EvaluateKeepsShares<T>(s: Instance<T>, t: Instance<T>, name: string, v: T)
    requires Valid(s) && Valid(t) && AllReadAhead(s, t) && SharesAhead(s, t) && Pending(t, name)
    ensures SharesAhead(s, StoreTensor(t, name, v, Normal))
  {
    var u := StoreTensor(t, name, v, Normal);
    assert ReadsAhead(s, t, name);
    forall x, y | SameId(s, x, y) && !Pending(s, x)
      ensures SameId(u, x, y)
    {
      PendingIsShared(s, x, y);
      assert SameId(t, x, y);
    }
    forall x, y | SameId(u, x, y)
      ensures SameId(s, x, y)
    {
      if x != name && y != name {
        assert SameId(t, x, y);
      }
    }
  }

  lemma RegisterStaysAhead<T>(k: Kernels<T>, s: Instance<T>, t: Instance<T>, name: string, e: Expression<T>, f: Expression<T>)
    requires Ahead(k, s, t) && Eval(k, e) == Eval(k, f)
    ensures Ahead(k, RegisterLazy(s, name, e), RegisterLazy(t, name, f))
  {
    var u, v := RegisterLazy(s, name, e), RegisterLazy(t, name, f);
    RegisterKeepsValid(s, name, e);
    RegisterKeepsValid(t, name, f);
    forall m | m in u.names
      ensures Denotes(k, u, m) == Denotes(k, v, m)
    {
      RegisterDenotes(k, s, name, e, m);
      RegisterDenotes(k, t, name, f, m);
      AheadDenotes(k, s, t, m);
    }
    RegisterKeepsReads(s, t, name, e, f);
    RegisterKeepsShares(s, t, name, e, f);
  }

  lemma RegisterKeepsReads<T>(s: Instance<T>, t: Instance<T>, name: string, e: Expression<T>, f: Expression<T>)
    requires Valid(s) && Valid(t) && AllReadAhead(s, t)
    ensures AllReadAhead(RegisterLazy(s, name, e), RegisterLazy(t, name, f))
  {
    var u, v := RegisterLazy(s, name, e), RegisterLazy(t, name, f);
    forall m | m in u.names
      ensures ReadsAhead(u, v, m)
    {
      RegisterReads(s, name, e, m);
      RegisterReads(t, name, f, m);
      assert m != name ==> ReadsAhead(s, t, m);
    }
  }

  lemma RegisterKeepsShares<T>(s: Instance<T>, t: Instance<T>, name: string, e: Expression<T>, f: Expression<T>)
    requires Valid(s) && Valid(t) && SharesAhead(s, t)
    ensures SharesAhead(RegisterLazy(s, name, e), RegisterLazy(t, name, f))
  {
    var u, v := RegisterLazy(s, name, e), RegisterLazy(t, name, f);
    forall x, y | SameId(u, x, y) && !Pending(u, x)
      ensures SameId(v, x, y)
    {
      RegisterReads(s, name, e, x);
      assert SameId(s, x, y) && !Pending(s, x);
    }
    forall x, y | SameId(v, x, y)
      ensures SameId(u, x, y)
    {
      if x != name && y != name {
        assert SameId(t, x, y);
      }
    }
  }

  lemma InsertStaysAhead<T>(k: Kernels<T>, s: Instance<T>, t: Instance<T>, name: string, tensor: T, kind: Kind)
    requires Ahead(k, s, t)
    ensures Ahead(k, StoreTensor(s, name, tensor, kind), StoreTensor(t, name, tensor, kind))
  {
    var u, v := StoreTensor(s, name, tensor, kind), StoreTensor(t, name, tensor, kind);
    StoreKeepsValid(s, name, tensor, kind);
    StoreKeepsValid(t, name, tensor, kind);
    forall m | m in u.names
      ensures Denotes(k, u, m) == Denotes(k, v, m)
    {
      StoreDenotes(k, s, name, tensor, kind, m);
      StoreDenotes(k, t, name, tensor, kind, m);
      AheadDenotes(k, s, t, m);
    }
    InsertKeepsReads(s, t, name, tensor, kind);
    InsertKeepsShares(s, t, name, tensor, kind);
  }

  lemma InsertKeepsReads<T>(s: Instance<T>, t: Instance<T>, name: string, tensor: T, kind: Kind)
    requires Valid(s) && Valid(t) && AllReadAhead(s, t)
    ensures AllReadAhead(StoreTensor(s, name, tensor, kind), StoreTensor(t, name, tensor, kind))
  {
    var u, v := StoreTensor(s, name, tensor, kind), StoreTensor(t, name, tensor, kind);
    forall m | m in u.names
      ensures ReadsAhead(u, v, m)
    {
      StoreReads(s, name, tensor, kind, m);
      StoreReads(t, name, tensor, kind, m);
      assert m != name ==> ReadsAhead(s, t, m);
    }
  }

  lemma InsertKeepsShares<T>(s: Instance<T>, t: Instance<T>, name: string, tensor: T, kind: Kind)
    requires Valid(s) && Valid(t) && SharesAhead(s, t)
    ensures SharesAhead(StoreTensor(s, name, tensor, kind), StoreTensor(t, name, tensor, kind))
  {
    var u, v := StoreTensor(s, name, tensor, kind), StoreTensor(t, name, tensor, kind);
    forall x, y | SameId(u, x, y) && !Pending(u, x)
      ensures SameId(v, x, y)
    {
      if x != name && y != name {
        StoreReads(s, name, tensor, kind, x);
        assert SameId(s, x, y) && !Pending(s, x);
      }
    }
    forall x, y | SameId(v, x, y)
      ensures SameId(u, x, y)
    {
      if x != name && y != name {
        assert SameId(t, x, y);
      }
    }
  }

  lemma RenameStaysAhead<T>(k: Kernels<T>, s: Instance<T>, t: Instance<T>, name: string, source: string)
    requires Ahead(k, s, t) && source in s.names
    ensures Ahead(k, Rename(s, name, source), Rename(t, name, source))
  {
    var u, v := Rename(s, name, source), Rename(t, name, source);
    RenameKeepsValid(s, name, source);
    RenameKeepsValid(t, name, source);
    forall m | m in u.names
      ensures Denotes(k, u, m) == Denotes(k, v, m)
    {
      RenameDenotes(k, s, name, source, m);
      RenameDenotes(k, t, name, source, m);
      AheadDenotes(k, s, t, if m == name then source else m);
    }
    RenameKeepsReads(s, t, name, source);
    RenameKeepsShares(s, t, name, source);
  }

  lemma RenameKeepsReads<T>(s: Instance<T>, t: Instance<T>, name: string, source: string)
    requires source in s.names && source in t.names && AllReadAhead(s, t)
    ensures AllReadAhead(Rename(s, name, source), Rename(t, name, source))
  {
    var u, v := Rename(s, name, source), Rename(t, name, source);
    forall m | m in u.names
      ensures ReadsAhead(u, v, m)
    {
      RenameReads(s, name, source, m);
      RenameReads(t, name, source, m);
      assert ReadsAhead(s, t, if m == name then source else m);
    }
  }

  lemma RenameKeepsShares<T>(s: Instance<T>, t: Instance<T>, name: string, source: string)
    requires source in s.names && source in t.names && SharesAhead(s, t)
    ensures SharesAhead(Rename(s, name, source), Rename(t, name, source))
  {
    var u, v := Rename(s, name, source), Rename(t, name, source);
    forall x, y | SameId(u, x, y) && !Pending(u, x)
      ensures SameId(v, x, y)
    {
      var a, b := if x == name then source else x, if y == name then source else y;
      assert SameId(s, a, b) && !Pending(s, a);
    }
    forall x, y | SameId(v, x, y)
      ensures SameId(u, x, y)
    {
      var a, b := if x == name then source else x, if y == name then source else y;
      assert SameId(t, a, b);
    }
  }

  // ---------------------------------------------------------------- steps that see an evaluation: removal

  /** `y` loses its tensor when `x` is removed. */
  ghost predicate Loses<T>(s: Instance<T>, x: string, y: string) {
    y != x && SameId(s, y, x) && s.names[x].id in s.store
  }

  /** Removing `x` costs no further name its tensor in `t` than in `s`. */
  ghost predicate LosesAlike<T>(s: Instance<T>, t: Instance<T>, x: string) {
    forall y :: Loses(t, x, y) ==> Loses(s, x, y)
  }

  /** What is lost before evaluation is lost after it. */
  lemma LossesFollow<T>(k: Kernels<T>, s: Instance<T>, t: Instance<T>, x: string, y: string)
    requires Ahead(k, s, t) && Loses(s, x, y)
    ensures Loses(t, x, y) && !Pending(s, y)
  {
    PendingIsShared(s, y, x);
    assert ReadsAhead(s, t, x);
    assert SameId(t, y, x);
  }

  /** What is lost only after evaluation was unevaluated before. */
  lemma NewLossIsHidden<T>(k: Kernels<T>, s: Instance<T>, t: Instance<T>, x: string, y: string)
    requires Ahead(k, s, t) && Loses(t, x, y) && !Loses(s, x, y)
    ensures Pending(s, y) && t.names[y].kind == Normal && Hidden(s, t, x)
  {
    assert SameId(s, y, x);
    assert ReadsAhead(s, t, x) && ReadsAhead(s, t, y);
    PendingIsShared(s, y, x);
    PendingIsShared(t, y, x);
  }

  lemma RemovalSeesOne<T>(k: Kernels<T>, s: Instance<T>, t: Instance<T>, x: string, m: string)
    requires Ahead(k, s, t) && x in s.names && m in s.names && m != x
    ensures Denotes(k, Drop(s, x), m) == Denotes(k, Drop(t, x), m) <==> (Loses(t, x, m) ==> Loses(s, x, m))
  {
    DropDenotes(k, s, x, m);
    DropDenotes(k, t, x, m);
    AheadDenotes(k, s, t, m);
    assert ReadsAhead(s, t, m);
    if Loses(s, x, m) {
      LossesFollow(k, s, t, x, m);
    } else if Loses(t, x, m) {
      NewLossIsHidden(k, s, t, x, m);
    } else {
      SharedNothing(k, s, x, m);
      SharedNothing(k, t, x, m);
    }
  }

  /** Removing a name costs another nothing unless there was a tensor to lose. */
  lemma SharedNothing<T>(k: Kernels<T>, s: Instance<T>, x: string, m: string)
    requires Valid(s) && x in s.names && m != x && !Loses(s, x, m)
    ensures Denotes(k, Drop(s, x), m) == Denotes(k, s, m) && Read(Drop(s, x), m) == Read(s, m)
  {
    DropDenotes(k, s, x, m);
    DropReads(s, x, m);
  }

  /**
   The remaining names keep agreeing after a removal exactly when none loses its tensor in the evaluated instance
   and not in the other.
   */
  lemma RemovalSeesEvaluation<T>(k: Kernels<T>, s: Instance<T>, t: Instance<T>, x: string)
    requires Ahead(k, s, t) && x in s.names
    ensures (forall m :: m in s.names && m != x ==> Denotes(k, Drop(s, x), m) == Denotes(k, Drop(t, x), m))
            <==> LosesAlike(s, t, x)
  {
    forall m | m in s.names && m != x
      ensures Denotes(k, Drop(s, x), m) == Denotes(k, Drop(t, x), m) <==> (Loses(t, x, m) ==> Loses(s, x, m))
    {
      RemovalSeesOne(k, s, t, x, m);
    }
  }

  /** `remove_tensor` answers whether there was a tensor: the same in both unless the name was unevaluated in one alone. */
  lemma RemovalAnswers<T>(k: Kernels<T>, s: Instance<T>, t: Instance<T>, x: string)
    requires Ahead(k, s, t)
    ensures Read(s, x).Ok? == Read(t, x).Ok? <==> !Hidden(s, t, x)
  {
    if x in s.names {
      assert ReadsAhead(s, t, x);
      if Hidden(s, t, x) {
        PendingReadsNothing(s, x);
      }
    }
  }

  lemma DropStaysAhead<T>(k: Kernels<T>, s: Instance<T>, t: Instance<T>, name: string)
    requires Ahead(k, s, t) && name in s.names && LosesAlike(s, t, name)
    ensures Ahead(k, Drop(s, name), Drop(t, name))
  {
    DropKeepsValid(s, name);
    DropKeepsValid(t, name);
    RemovalSeesEvaluation(k, s, t, name);
    DropKeepsReads(k, s, t, name);
    DropKeepsShares(s, t, name);
  }

  lemma DropKeepsReads<T>(k: Kernels<T>, s: Instance<T>, t: Instance<T>, name: string)
    requires Ahead(k, s, t) && name in s.names && LosesAlike(s, t, name)
    ensures AllReadAhead(Drop(s, name), Drop(t, name))
  {
    var u, v := Drop(s, name), Drop(t, name);
    forall m | m in u.names
      ensures ReadsAhead(u, v, m)
    {
      DropReads(s, name, m);
      DropReads(t, name, m);
      assert ReadsAhead(s, t, m);
      if Loses(s, name, m) {
        LossesFollow(k, s, t, name, m);
      } else {
        assert !Loses(t, name, m);
        SharedNothing(k, s, name, m);
        SharedNothing(k, t, name, m);
      }
    }
  }

  lemma DropKeepsShares<T>(s: Instance<T>, t: Instance<T>, name: string)
    requires name in s.names && name in t.names && SharesAhead(s, t)
    ensures SharesAhead(Drop(s, name), Drop(t, name))
  {
    var u, v := Drop(s, name), Drop(t, name);
    forall x, y | SameId(u, x, y) && !Pending(u, x)
      ensures SameId(v, x, y)
    {
      assert SameId(s, x, y) && !Pending(s, x);
    }
    forall x, y | SameId(v, x, y)
      ensures SameId(u, x, y)
    {
      assert SameId(t, x, y);
    }
  }

  // ---------------------------------------------------------------- steps that see an evaluation: eager reads

  /** Looking up the operands gives the same in both: up to the first error, each is evaluated in both or in neither. */
  ghost predicate ReadAlike<T>(s: Instance<T>, t: Instance<T>, operands: seq<string>) {
    operands == [] ||
    (if Hidden(s, t, operands[0]) then ReadAll(t, operands[1..]) == Err("Tensor not found")
     else Read(t, operands[0]).Err? || ReadAlike(s, t, operands[1..]))
  }

  lemma ReadSeesEvaluation<T>(k: Kernels<T>, s: Instance<T>, t: Instance<T>, m: string)
    requires Ahead(k, s, t)
    ensures Read(s, m) == Read(t, m) <==> !Hidden(s, t, m)
    ensures Hidden(s, t, m) ==> Read(s, m) == Err("Tensor not found") && Read(t, m).Ok?
  {
    if m in s.names {
      assert ReadsAhead(s, t, m);
      if Pending(s, m) {
        PendingReadsNothing(s, m);
      }
    }
  }

  /** Both look the operands up alike exactly then. */
  lemma {:induction false} OperandsSeeEvaluation<T>(k: Kernels<T>, s: Instance<T>, t: Instance<T>, operands: seq<string>)
    requires Ahead(k, s, t)
    ensures ReadAll(s, operands) == ReadAll(t, operands) <==> ReadAlike(s, t, operands)
  {
    if operands != [] {
      ReadSeesEvaluation(k, s, t, operands[0]);
      OperandsSeeEvaluation(k, s, t, operands[1..]);
      ReadAllStep(s, operands);
      ReadAllStep(t, operands);
      if ReadAll(s, operands).Ok? && ReadAll(t, operands).Ok? {
        ConsIsInjective(Read(s, operands[0]).value, ReadAll(s, operands[1..]).value, Read(t, operands[0]).value, ReadAll(t, operands[1..]).value);
      }
    }
  }

  lemma ConsIsInjective<T>(v: T, vs: seq<T>, w: T, ws: seq<T>)
    ensures [v] + vs == [w] + ws <==> v == w && vs == ws
  {
    assert ([v] + vs)[1..] == vs && ([w] + ws)[1..] == ws;
    assert ([v] + vs)[0] == v && ([w] + ws)[0] == w;
  }

  lemma ReadAllStep<T>(s: Instance<T>, operands: seq<string>)
    requires operands != []
    ensures var first, rest := Read(s, operands[0]), ReadAll(s, operands[1..]);
            ReadAll(s, operands) == if first.Err? then Err(first.message)
                                    else if rest.Err? then Err(rest.message)
                                    else Ok([first.value] + rest.value)
  {
  }

  /** An operation whose operands are all there in the one sees an evaluation exactly when it reads a name evaluated there alone. */
  lemma {:induction false} FoundOperandsSee<T>(k: Kernels<T>, s: Instance<T>, t: Instance<T>, operands: seq<string>)
    requires Ahead(k, s, t) && ReadAll(t, operands).Ok?
    ensures ReadAlike(s, t, operands) <==> forall m :: m in operands ==> !Hidden(s, t, m)
  {
    if operands != [] {
      ReadAllStep(t, operands);
      FoundOperandsSee(k, s, t, operands[1..]);
      assert operands == [operands[0]] + operands[1..];
    }
  }

  /** What is found without evaluation is found, and is of the same kind, with it. */
  lemma {:induction false} FoundIsSame<T>(k: Kernels<T>, s: Instance<T>, t: Instance<T>, operands: seq<string>)
    requires Ahead(k, s, t) && ReadAll(s, operands).Ok?
    ensures ReadAlike(s, t, operands) && forall i :: 0 <= i < |operands| ==> KindOf(s, operands[i]) == KindOf(t, operands[i])
  {
    if operands != [] {
      ReadAllStep(s, operands);
      FoundIsSame(k, s, t, operands[1..]);
      ReadSeesEvaluation(k, s, t, operands[0]);
      assert ReadsAhead(s, t, operands[0]);
      forall i | 0 <= i < |operands|
        ensures KindOf(s, operands[i]) == KindOf(t, operands[i])
      {
        assert i > 0 ==> operands[i] == operands[1..][i - 1];
      }
    }
  }

  lemma SameResultKind<T>(s: Instance<T>, t: Instance<T>, call: Call, operands: seq<string>)
    requires forall i :: 0 <= i < |operands| ==> KindOf(s, operands[i]) == KindOf(t, operands[i])
    ensures ResultKind(s, call, operands) == ResultKind(t, call, operands)
  {
  }

  lemma {:induction false} LookupMessage<T>(s: Instance<T>, operands: seq<string>)
    ensures ReadAll(s, operands).Err? ==> ReadAll(s, operands).message in ["name not found", "Tensor not found"]
  {
    if operands != [] {
      LookupMessage(s, operands[1..]);
    }
  }

  /** A kernel's refusal never reads like a missing operand. */
  lemma RefusalIsTold(e: string)
    ensures "Invalid operation: " + e != "Tensor not found" && "Invalid operation: " + e != "name not found"
  {
    assert ("Invalid operation: " + e)[0] == 'I';
  }

  lemma EagerOutcome<T>(k: Kernels<T>, s: Instance<T>, name: string, operands: seq<string>, call: Call)
    ensures var op, r := Eager(name, operands, call), EagerValue(k, s, operands, call);
            && Answer(k, s, op) == (if r.Ok? then Ok(None) else Err(r.message))
            && After(k, s, op) == (if r.Ok? then StoreTensor(s, name, r.value, ResultKind(s, call, operands)) else s)
  {
  }

  /**
   The result of a binary operation, a product or a stack is strict if and only if some operand is, and else normal.
   Any other result has the kind of its first operand.
   */
  lemma EagerKind<T>(k: Kernels<T>, s: Instance<T>, name: string, operands: seq<string>, call: Call)
    requires Apply(k, s, Eager(name, operands, call)).Ok?
    ensures var kind := KindOf(After(k, s, Eager(name, operands, call)), name);
            if call.BinaryCall? || call.MatMulCall? || call.StackCall? then
              && (kind == Strict <==> exists m :: m in operands && KindOf(s, m) == Strict)
              && (kind == Normal <==> forall m :: m in operands ==> KindOf(s, m) != Strict)
            else operands != [] ==> kind == KindOf(s, operands[0])
  {
    if m :| m in operands && KindOf(s, m) == Strict {
      var i :| 0 <= i < |operands| && operands[i] == m;
      assert KindOf(s, operands[i]) == Strict;
    }
  }

  lemma EagerStaysAhead<T>(k: Kernels<T>, s: Instance<T>, t: Instance<T>, name: string, operands: seq<string>, call: Call)
    requires Ahead(k, s, t) && ReadAlike(s, t, operands)
    ensures var op := Eager(name, operands, call);
            Answer(k, s, op) == Answer(k, t, op) && Ahead(k, After(k, s, op), After(k, t, op))
  {
    EagerOutcome(k, s, name, operands, call);
    EagerOutcome(k, t, name, operands, call);
    OperandsSeeEvaluation(k, s, t, operands);
    var r := EagerValue(k, s, operands, call);
    if r.Ok? {
      FoundIsSame(k, s, t, operands);
      SameResultKind(s, t, call, operands);
      InsertStaysAhead(k, s, t, name, r.value, ResultKind(s, call, operands));
    }
  }

  /** A failed lookup is told apart from whatever another lookup or a kernel says. */
  lemma FailedLookupIsTold<T>(k: Kernels<T>, s: Instance<T>, t: Instance<T>, operands: seq<string>, call: Call)
    requires ReadAll(s, operands).Err? && ReadAll(s, operands) != ReadAll(t, operands)
    ensures EagerValue(k, s, operands, call) == Err(ReadAll(s, operands).message)
    ensures EagerValue(k, t, operands, call) != EagerValue(k, s, operands, call)
  {
    LookupMessage(s, operands);
    if ReadAll(t, operands).Ok? && k.eager(call, ReadAll(t, operands).value).Err? {
      RefusalIsTold(k.eager(call, ReadAll(t, operands).value).message);
    }
  }

  /** An eager operation answers alike exactly when its operands are looked up alike. */
  lemma EagerSeesEvaluation<T>(k: Kernels<T>, s: Instance<T>, t: Instance<T>, name: string, operands: seq<string>, call: Call)
    requires Ahead(k, s, t)
    ensures Answer(k, s, Eager(name, operands, call)) == Answer(k, t, Eager(name, operands, call)) <==> ReadAlike(s, t, operands)
  {
    EagerOutcome(k, s, name, operands, call);
    EagerOutcome(k, t, name, operands, call);
    OperandsSeeEvaluation(k, s, t, operands);
    if !ReadAlike(s, t, operands) {
      if ReadAll(s, operands).Ok? {
        FoundIsSame(k, s, t, operands);
      } else {
        FailedLookupIsTold(k, s, t, operands, call);
      }
    }
  }

  // ---------------------------------------------------------------- one step

  /** The step finds no name that is evaluated in the one and not in the other where it would matter. */
  ghost predicate StepAgrees<T>(s: Instance<T>, t: Instance<T>, op: Op<T>) {
    match op
    case Remove(name) => LosesAlike(s, t, name)
    case Get(name) => !Hidden(s, t, name)
    case Eager(_, operands, _) => ReadAlike(s, t, operands)
    case _ => true
  }

  lemma StepStaysAhead<T>(k: Kernels<T>, s: Instance<T>, t: Instance<T>, op: Op<T>)
    requires Ahead(k, s, t) && !op.Evaluate? && StepAgrees(s, t, op)
    ensures Answer(k, s, op) == Answer(k, t, op) && Ahead(k, After(k, s, op), After(k, t, op))
  {
    match op
    case Insert(name, tensor, kind) => InsertStaysAhead(k, s, t, name, tensor, kind);
    case Alias(name, source) =>
      if source in s.names {
        RenameStaysAhead(k, s, t, name, source);
      }
    case Remove(name) =>
      if name in s.names {
        DropStaysAhead(k, s, t, name);
      }
    case LazyUnary(name, input, uop) => UnaryStaysAhead(k, s, t, name, input, uop);
    case LazyBinary(name, left, right, bop) => BinaryStaysAhead(k, s, t, name, left, right, bop);
    case LazyMatMul(name, left, right) => MatMulStaysAhead(k, s, t, name, left, right);
    case Get(name) => ReadSeesEvaluation(k, s, t, name);
    case Eager(name, operands, call) => EagerStaysAhead(k, s, t, name, operands, call);
  }

  /** A step answers alike and leaves nothing but evaluation to tell the instances apart exactly when it agrees on them. */
  lemma StepSeesEvaluation<T>(k: Kernels<T>, s: Instance<T>, t: Instance<T>, op: Op<T>)
    requires Ahead(k, s, t) && !op.Evaluate?
    ensures Answer(k, s, op) == Answer(k, t, op) && Ahead(k, After(k, s, op), After(k, t, op)) <==> StepAgrees(s, t, op)
  {
    if StepAgrees(s, t, op) {
      StepStaysAhead(k, s, t, op);
    } else {
      match op
      case Remove(name) => RemovalIsSeen(k, s, t, name);
      case Get(name) => ReadSeesEvaluation(k, s, t, name);
      case Eager(name, operands, call) => EagerSeesEvaluation(k, s, t, name, operands, call);
    }
  }

  lemma DroppedIsNotAhead<T>(k: Kernels<T>, s: Instance<T>, t: Instance<T>, x: string)
    requires Ahead(k, s, t) && !LosesAlike(s, t, x)
    ensures x in s.names && x in t.names && !Ahead(k, Drop(s, x), Drop(t, x))
  {
    var y :| Loses(t, x, y) && !Loses(s, x, y);
    RemovalSeesOne(k, s, t, x, y);
    if Ahead(k, Drop(s, x), Drop(t, x)) {
      AheadDenotes(k, Drop(s, x), Drop(t, x), y);
    }
  }

  lemma RemovalIsSeen<T>(k: Kernels<T>, s: Instance<T>, t: Instance<T>, x: string)
    requires Ahead(k, s, t) && !LosesAlike(s, t, x)
    ensures !Ahead(k, After(k, s, Remove(x)), After(k, t, Remove(x)))
  {
    DroppedIsNotAhead(k, s, t, x);
  }

  lemma UnaryStaysAhead<T>(k: Kernels<T>, s: Instance<T>, t: Instance<T>, name: string, input: string, uop: UnaryOp)
    requires Ahead(k, s, t)
    ensures var op := LazyUnary(name, input, uop);
            Answer(k, s, op) == Answer(k, t, op) && Ahead(k, After(k, s, op), After(k, t, op))
  {
    AheadDenotes(k, s, t, input);
    if Capture(s, input).Ok? {
      var e, f := Capture(s, input).value, Capture(t, input).value;
      SameUnary(k, uop, e, f);
      if UnaryExpression(uop, e).Ok? {
        RegisterStaysAhead(k, s, t, name, UnaryExpression(uop, e).value, UnaryExpression(uop, f).value);
      }
    }
  }

  function UnaryKernel<T>(k: Kernels<T>, uop: UnaryOp): Option<T -> Result<T>> {
    match uop
    case OpScale(s) => Some(v => k.scalarMul(v, s))
    case OpNormalize => Some(k.normalize)
    case OpSum => Some(k.sum)
    case OpMean => Some(k.mean)
    case OpStdev => Some(k.stdev)
    case OpVariance => Some(k.variance)
    case _ => None
  }

  lemma UnaryMeans<T>(k: Kernels<T>, uop: UnaryOp, e: Expression<T>)
    ensures UnaryExpression(uop, e).Ok? == UnaryKernel(k, uop).Some?
    ensures UnaryExpression(uop, e).Ok? ==>
            Eval(k, UnaryExpression(uop, e).value) == Bind1(Eval(k, e), UnaryKernel(k, uop).value)
  {
  }

  lemma SameUnary<T>(k: Kernels<T>, uop: UnaryOp, e: Expression<T>, f: Expression<T>)
    requires Eval(k, e) == Eval(k, f)
    ensures UnaryExpression(uop, e).Ok? == UnaryExpression(uop, f).Ok?
    ensures UnaryExpression(uop, e).Ok? ==> Eval(k, UnaryExpression(uop, e).value) == Eval(k, UnaryExpression(uop, f).value)
  {
    UnaryMeans(k, uop, e);
    UnaryMeans(k, uop, f);
  }

  lemma BinaryStaysAhead<T>(k: Kernels<T>, s: Instance<T>, t: Instance<T>, name: string, left: string, right: string, bop: BinaryOp)
    requires Ahead(k, s, t)
    ensures var op := LazyBinary(name, left, right, bop);
            Answer(k, s, op) == Answer(k, t, op) && Ahead(k, After(k, s, op), After(k, t, op))
  {
    AheadDenotes(k, s, t, left);
    AheadDenotes(k, s, t, right);
    if Capture(s, left).Ok? && Capture(s, right).Ok? {
      var l, r, u, v := Capture(s, left).value, Capture(s, right).value, Capture(t, left).value, Capture(t, right).value;
      SameBinary(k, bop, l, r, u, v);
      if BinaryExpression(bop, l, r).Ok? {
        RegisterStaysAhead(k, s, t, name, BinaryExpression(bop, l, r).value, BinaryExpression(bop, u, v).value);
      }
    }
  }

  /** What the operation computes from two operand values. */
  function BinaryKernel<T>(k: Kernels<T>, bop: BinaryOp): Option<(T, T) -> Result<T>> {
    match bop
    case OpAdd => Some(k.add)
    case OpSubtract => Some(k.sub)
    case OpMultiply => Some(k.multiply)
    case OpDivide => Some(k.divide)
    case _ => None
  }

  lemma BinaryMeans<T>(k: Kernels<T>, bop: BinaryOp, l: Expression<T>, r: Expression<T>)
    ensures BinaryExpression(bop, l, r).Ok? == BinaryKernel(k, bop).Some?
    ensures BinaryExpression(bop, l, r).Ok? ==>
            Eval(k, BinaryExpression(bop, l, r).value) == Bind2(Eval(k, l), Eval(k, r), BinaryKernel(k, bop).value)
  {
  }

  lemma SameBinary<T>(k: Kernels<T>, bop: BinaryOp, l: Expression<T>, r: Expression<T>, u: Expression<T>, v: Expression<T>)
    requires Eval(k, l) == Eval(k, u) && Eval(k, r) == Eval(k, v)
    ensures BinaryExpression(bop, l, r).Ok? == BinaryExpression(bop, u, v).Ok?
    ensures BinaryExpression(bop, l, r).Ok? ==>
            Eval(k, BinaryExpression(bop, l, r).value) == Eval(k, BinaryExpression(bop, u, v).value)
  {
    BinaryMeans(k, bop, l, r);
    BinaryMeans(k, bop, u, v);
  }

  lemma MatMulStaysAhead<T>(k: Kernels<T>, s: Instance<T>, t: Instance<T>, name: string, left: string, right: string)
    requires Ahead(k, s, t)
    ensures var op := LazyMatMul(name, left, right);
            Answer(k, s, op) == Answer(k, t, op) && Ahead(k, After(k, s, op), After(k, t, op))
  {
    AheadDenotes(k, s, t, left);
    AheadDenotes(k, s, t, right);
    if Capture(s, left).Ok? && Capture(s, right).Ok? {
      RegisterStaysAhead(k, s, t, name, MatMul(Capture(s, left).value, Capture(s, right).value),
                         MatMul(Capture(t, left).value, Capture(t, right).value));
    }
  }

  // ---------------------------------------------------------------- whole runs

  /** In the two runs, with evaluations only in the one from `t`, no step sees one. */
  ghost predicate StepsAgree<T>(k: Kernels<T>, s: Instance<T>, t: Instance<T>, ops: seq<Op<T>>)
    decreases |ops|
  {
    ops == [] ||
    (if ops[0].Evaluate? then StepsAgree(k, s, After(k, t, ops[0]), ops[1..])
     else StepAgrees(s, t, ops[0]) && StepsAgree(k, After(k, s, ops[0]), After(k, t, ops[0]), ops[1..]))
  }

  /** No removal in the run takes the tensor of `m` away. */
  ghost predicate KeepsTensorOf<T>(k: Kernels<T>, s: Instance<T>, ops: seq<Op<T>>, m: string)
    decreases |ops|
  {
    ops == [] ||
    ((ops[0].Remove? ==> Keeps(s, ops[0].name, m)) && KeepsTensorOf(k, After(k, s, ops[0]), ops[1..], m))
  }

  /** Removing `x` leaves `m` its value. */
  ghost predicate Keeps<T>(s: Instance<T>, x: string, m: string) {
    Loses(s, x, m) ==> s.names[m].kind == Lazy
  }

  function WithoutEvaluate<T>(ops: seq<Op<T>>): seq<Op<T>> {
    if ops == [] then [] else (if ops[0].Evaluate? then [] else [ops[0]]) + WithoutEvaluate(ops[1..])
  }

  /** The answers to all calls but the evaluations. */
  function Answers<T>(k: Kernels<T>, s: Instance<T>, ops: seq<Op<T>>): seq<Result<Option<T>>>
    decreases |ops|
  {
    if ops == [] then []
    else (if ops[0].Evaluate? then [] else [Answer(k, s, ops[0])]) + Answers(k, After(k, s, ops[0]), ops[1..])
  }

  lemma RunsStep<T>(k: Kernels<T>, s: Instance<T>, op: Op<T>, rest: seq<Op<T>>)
    requires !op.Evaluate?
    ensures WithoutEvaluate([op] + rest) == [op] + WithoutEvaluate(rest)
    ensures Run(k, s, [op] + rest) == Run(k, After(k, s, op), rest)
    ensures Answers(k, s, [op] + rest) == [Answer(k, s, op)] + Answers(k, After(k, s, op), rest)
  {
    assert ([op] + rest)[1..] == rest;
  }

  lemma {:induction false} RunsStayAhead<T>(k: Kernels<T>, s: Instance<T>, t: Instance<T>, ops: seq<Op<T>>)
    requires Ahead(k, s, t) && StepsAgree(k, s, t, ops)
    ensures Ahead(k, Run(k, s, WithoutEvaluate(ops)), Run(k, t, ops))
    ensures Answers(k, s, WithoutEvaluate(ops)) == Answers(k, t, ops)
    decreases |ops|
  {
    if ops != [] {
      var op, rest := ops[0], ops[1..];
      assert ops == [op] + rest;
      if op.Evaluate? {
        EvaluateStaysAhead(k, s, t, op.name);
        RunsStayAhead(k, s, After(k, t, op), rest);
        assert WithoutEvaluate(ops) == WithoutEvaluate(rest);
      } else {
        StepStaysAhead(k, s, t, op);
        RunsStayAhead(k, After(k, s, op), After(k, t, op), rest);
        RunsStep(k, t, op, rest);
        RunsStep(k, s, op, WithoutEvaluate(rest));
      }
    }
  }

  /** Evaluating early, late, often or never gives the same answers and the same names with the same values and errors. */
  lemma EvaluationTimeIsInvisible<T>(k: Kernels<T>, s: Instance<T>, ops: seq<Op<T>>, m: string)
    requires Valid(s) && StepsAgree(k, s, s, ops)
    ensures Answers(k, s, ops) == Answers(k, s, WithoutEvaluate(ops))
    ensures Run(k, s, ops).names.Keys == Run(k, s, WithoutEvaluate(ops)).names.Keys
    ensures Denotes(k, Run(k, s, ops), m) == Denotes(k, Run(k, s, WithoutEvaluate(ops)), m)
  {
    IsAheadOfItself(k, s);
    RunsStayAhead(k, s, s, ops);
    AheadDenotes(k, Run(k, s, WithoutEvaluate(ops)), Run(k, s, ops), m);
  }

  /** Every call but the evaluations succeeds when nothing is evaluated. */
  ghost predicate SucceedsLazily<T>(k: Kernels<T>, s: Instance<T>, ops: seq<Op<T>>)
    decreases |ops|
  {
    ops == [] ||
    (if ops[0].Evaluate? then SucceedsLazily(k, s, ops[1..])
     else Apply(k, s, ops[0]).Ok? && SucceedsLazily(k, After(k, s, ops[0]), ops[1..]))
  }

  lemma {:induction false} SuccessAgrees<T>(k: Kernels<T>, s: Instance<T>, t: Instance<T>, ops: seq<Op<T>>)
    requires Ahead(k, s, t) && SucceedsLazily(k, s, ops) && forall i :: 0 <= i < |ops| ==> !ops[i].Remove?
    ensures StepsAgree(k, s, t, ops)
    decreases |ops|
  {
    if ops != [] {
      var op, rest := ops[0], ops[1..];
      if op.Evaluate? {
        EvaluateStaysAhead(k, s, t, op.name);
        SuccessAgrees(k, s, After(k, t, op), rest);
      } else {
        if op.Get? {
          ReadSeesEvaluation(k, s, t, op.name);
        } else if op.Eager? {
          FoundIsSame(k, s, t, op.operands);
        }
        StepStaysAhead(k, s, t, op);
        SuccessAgrees(k, After(k, s, op), After(k, t, op), rest);
      }
    }
  }

  /** A run without removals that succeeds with no evaluation in it gives the same answers and values with any. */
  lemma SucceedingRunsCannotSee<T>(k: Kernels<T>, s: Instance<T>, ops: seq<Op<T>>, m: string)
    requires Valid(s) && SucceedsLazily(k, s, ops) && forall i :: 0 <= i < |ops| ==> !ops[i].Remove?
    ensures Answers(k, s, ops) == Answers(k, s, WithoutEvaluate(ops))
    ensures Denotes(k, Run(k, s, ops), m) == Denotes(k, Run(k, s, WithoutEvaluate(ops)), m)
  {
    IsAheadOfItself(k, s);
    SuccessAgrees(k, s, s, ops);
    EvaluationTimeIsInvisible(k, s, ops, m);
  }

  /** The steps that give `name` another meaning. */
  predicate Rebinds<T>(op: Op<T>, name: string) {
    !op.Evaluate? && !op.Get? && op.name == name
  }

  lemma RemovalKeepsMeaning<T>(k: Kernels<T>, s: Instance<T>, x: string, m: string)
    requires Valid(s) && x in s.names && m != x && Keeps(s, x, m)
    ensures Denotes(k, Drop(s, x), m) == Denotes(k, s, m)
  {
    DropDenotes(k, s, x, m);
    if !Loses(s, x, m) {
      SharedNothing(k, s, x, m);
    }
  }

  lemma StepKeepsMeaning<T>(k: Kernels<T>, s: Instance<T>, op: Op<T>, m: string)
    requires Valid(s) && !Rebinds(op, m) && (op.Remove? ==> Keeps(s, op.name, m))
    ensures Denotes(k, After(k, s, op), m) == Denotes(k, s, m)
  {
    match op
    case Insert(name, tensor, kind) => StoreDenotes(k, s, name, tensor, kind, m);
    case Alias(name, source) =>
      if source in s.names {
        RenameDenotes(k, s, name, source, m);
      }
    case Remove(name) =>
      if name in s.names {
        RemovalKeepsMeaning(k, s, name, m);
      }
    case Get(name) =>
    case Eager(name, operands, call) =>
      if Apply(k, s, op).Ok? {
        StoreDenotes(k, s, name, EagerValue(k, s, operands, call).value, ResultKind(s, call, operands), m);
      }
    case Evaluate(name) => EvaluateChangesNothing(k, s, name, m);
    case LazyUnary(name, input, uop) =>
      if Apply(k, s, op).Ok? {
        RegisterDenotes(k, s, name, UnaryExpression(uop, Capture(s, input).value).value, m);
      }
    case LazyBinary(name, left, right, bop) =>
      if Apply(k, s, op).Ok? {
        RegisterDenotes(k, s, name, BinaryExpression(bop, Capture(s, left).value, Capture(s, right).value).value, m);
      }
    case LazyMatMul(name, left, right) =>
      if Apply(k, s, op).Ok? {
        RegisterDenotes(k, s, name, MatMul(Capture(s, left).value, Capture(s, right).value), m);
      }
  }

  lemma {:induction false} RunKeepsMeaning<T>(k: Kernels<T>, s: Instance<T>, ops: seq<Op<T>>, m: string)
    requires Valid(s) && KeepsTensorOf(k, s, ops, m) && forall i :: 0 <= i < |ops| ==> !Rebinds(ops[i], m)
    ensures Denotes(k, Run(k, s, ops), m) == Denotes(k, s, m)
    decreases |ops|
  {
    if ops != [] {
      StepKeepsMeaning(k, s, ops[0], m);
      ApplyKeepsValid(k, s, ops[0]);
      RunKeepsMeaning(k, After(k, s, ops[0]), ops[1..], m);
    }
  }

  /** What a lazy definition makes of the values its operands have now, if it is accepted. */
  function DefinitionValue<T>(k: Kernels<T>, s: Instance<T>, op: Op<T>): Option<Result<T>> {
    match op
    case LazyBinary(_, left, right, bop) =>
      var l, r, kernel := Denotes(k, s, left), Denotes(k, s, right), BinaryKernel(k, bop);
      if l.Ok? && r.Ok? && kernel.Some? then Some(Bind2(l.value, r.value, kernel.value)) else None
    case LazyMatMul(_, left, right) =>
      var l, r := Denotes(k, s, left), Denotes(k, s, right);
      if l.Ok? && r.Ok? then Some(Bind2(l.value, r.value, k.matmul)) else None
    case LazyUnary(_, input, uop) =>
      var i, kernel := Denotes(k, s, input), UnaryKernel(k, uop);
      if i.Ok? && kernel.Some? then Some(Bind1(i.value, kernel.value)) else None
    case _ => None
  }

  predicate IsDefinition<T>(op: Op<T>) {
    op.LazyBinary? || op.LazyMatMul? || op.LazyUnary?
  }

  /** A definition is accepted exactly when its operands and its operator are known, and then means that value. */
  lemma DefinitionDenotes<T>(k: Kernels<T>, s: Instance<T>, op: Op<T>)
    requires Valid(s) && IsDefinition(op)
    ensures Apply(k, s, op).Ok? <==> DefinitionValue(k, s, op).Some?
    ensures Apply(k, s, op).Ok? ==> Denotes(k, After(k, s, op), op.name) == Ok(DefinitionValue(k, s, op).value)
  {
    match op
    case LazyBinary(name, left, right, bop) =>
      if Capture(s, left).Ok? && Capture(s, right).Ok? {
        BinaryMeans(k, bop, Capture(s, left).value, Capture(s, right).value);
        if Apply(k, s, op).Ok? {
          RegisterDenotes(k, s, name, BinaryExpression(bop, Capture(s, left).value, Capture(s, right).value).value, name);
        }
      }
    case LazyMatMul(name, left, right) =>
      if Apply(k, s, op).Ok? {
        RegisterDenotes(k, s, name, MatMul(Capture(s, left).value, Capture(s, right).value), name);
      }
    case LazyUnary(name, input, uop) =>
      if Capture(s, input).Ok? {
        UnaryMeans(k, uop, Capture(s, input).value);
        if Apply(k, s, op).Ok? {
          RegisterDenotes(k, s, name, UnaryExpression(uop, Capture(s, input).value).value, name);
        }
      }
  }

  /**
   A lazy definition means its operator over what the operands denoted when it was made, however the
   operands are rebound or evaluated afterwards, until its own name is rebound or loses its tensor.
   */
  lemma DefinitionIsFixed<T>(k: Kernels<T>, s: Instance<T>, op: Op<T>, t: Instance<T>, ops: seq<Op<T>>)
    requires Valid(s) && IsDefinition(op) && Apply(k, s, op) == Ok(t)
    requires KeepsTensorOf(k, t, ops, op.name) && forall i :: 0 <= i < |ops| ==> !Rebinds(ops[i], op.name)
    ensures DefinitionValue(k, s, op).Some?
    ensures Denotes(k, Run(k, t, ops), op.name) == Ok(DefinitionValue(k, s, op).value)
  {
    DefinitionDenotes(k, s, op);
    ApplyKeepsValid(k, s, op);
    RunKeepsMeaning(k, t, ops, op.name);
  }

  lemma EvaluatedReads<T>(k: Kernels<T>, s: Instance<T>, name: string, v: T)
    requires Valid(s) && Pending(s, name) && Denotes(k, s, name) == Ok(Ok(v))
    ensures Read(After(k, s, Evaluate(name)), name) == Ok(v)
  {
    StoreReads(s, name, v, Normal, name);
  }

  /** The eager operation of the same name, operands and operator. */
  function EagerForm<T>(op: Op<T>): Op<T>
    requires IsDefinition(op)
  {
    match op
    case LazyBinary(name, left, right, bop) => Eager(name, [left, right], BinaryCall(bop))
    case LazyMatMul(name, left, right) => Eager(name, [left, right], MatMulCall)
    case LazyUnary(name, input, uop) => Eager(name, [input], UnaryCall(uop))
  }

  /** The backend runs, for each operator that can be lazy, the kernel of that operator. */
  ghost predicate SameKernels<T(!new)>(k: Kernels<T>) {
    && (forall x, y :: BinaryCalls(k, x, y))
    && forall x, factor :: UnaryCalls(k, x, factor)
  }

  ghost predicate BinaryCalls<T>(k: Kernels<T>, x: T, y: T) {
    && k.eager(BinaryCall(OpAdd), [x, y]) == k.add(x, y)
    && k.eager(BinaryCall(OpSubtract), [x, y]) == k.sub(x, y)
    && k.eager(BinaryCall(OpMultiply), [x, y]) == k.multiply(x, y)
    && k.eager(BinaryCall(OpDivide), [x, y]) == k.divide(x, y)
    && k.eager(MatMulCall, [x, y]) == k.matmul(x, y)
  }

  ghost predicate UnaryCalls<T>(k: Kernels<T>, x: T, factor: real) {
    && k.eager(UnaryCall(OpScale(factor)), [x]) == k.scalarMul(x, factor)
    && k.eager(UnaryCall(OpNormalize), [x]) == k.normalize(x)
    && k.eager(UnaryCall(OpSum), [x]) == k.sum(x)
    && k.eager(UnaryCall(OpMean), [x]) == k.mean(x)
    && k.eager(UnaryCall(OpStdev), [x]) == k.stdev(x)
    && k.eager(UnaryCall(OpVariance), [x]) == k.variance(x)
  }

  ghost predicate NotLazy<T>(s: Instance<T>, operands: seq<string>) {
    forall i :: 0 <= i < |operands| ==> KindOf(s, operands[i]) != Lazy
  }

  lemma StoredDenotes<T>(k: Kernels<T>, s: Instance<T>, m: string)
    requires Valid(s) && KindOf(s, m) != Lazy && Read(s, m).Ok?
    ensures Denotes(k, s, m) == Ok(Ok(Read(s, m).value))
  {
  }

  lemma UnaryRunsKernel<T(!new)>(k: Kernels<T>, uop: UnaryOp, x: T)
    requires SameKernels(k) && UnaryKernel(k, uop).Some?
    ensures UnaryKernel(k, uop).value(x) == k.eager(UnaryCall(uop), [x])
  {
    assert UnaryCalls(k, x, if uop.OpScale? then uop.factor else 0.0);
  }

  lemma BinaryRunsKernel<T(!new)>(k: Kernels<T>, bop: BinaryOp, x: T, y: T)
    requires SameKernels(k)
    ensures BinaryKernel(k, bop).Some? ==> BinaryKernel(k, bop).value(x, y) == k.eager(BinaryCall(bop), [x, y])
    ensures k.matmul(x, y) == k.eager(MatMulCall, [x, y])
  {
    assert BinaryCalls(k, x, y);
  }

  /** Over stored operands a definition means what the eager operation computes. */
  lemma DefinitionIsEager<T(!new)>(k: Kernels<T>, s: Instance<T>, op: Op<T>, v: T)
    requires Valid(s) && IsDefinition(op) && SameKernels(k) && NotLazy(s, EagerForm(op).operands)
    requires Apply(k, s, op).Ok? && EagerValue(k, s, EagerForm(op).operands, EagerForm(op).call) == Ok(v)
    ensures DefinitionValue(k, s, op) == Some(Ok(v))
  {
    DefinitionDenotes(k, s, op);
    match op
    case LazyBinary(name, left, right, bop) =>
      ReadTwo(s, left, right);
      assert [left, right][0] == left && [left, right][1] == right;
      StoredDenotes(k, s, left);
      StoredDenotes(k, s, right);
      BinaryRunsKernel(k, bop, Read(s, left).value, Read(s, right).value);
    case LazyMatMul(name, left, right) =>
      ReadTwo(s, left, right);
      assert [left, right][0] == left && [left, right][1] == right;
      StoredDenotes(k, s, left);
      StoredDenotes(k, s, right);
      BinaryRunsKernel(k, OpAdd, Read(s, left).value, Read(s, right).value);
    case LazyUnary(name, input, uop) =>
      ReadOne(s, input);
      assert [input][0] == input;
      StoredDenotes(k, s, input);
      UnaryRunsKernel(k, uop, Read(s, input).value);
  }

  lemma ReadOne<T>(s: Instance<T>, x: string)
    ensures ReadAll(s, [x]) == if Read(s, x).Err? then Err(Read(s, x).message) else Ok([Read(s, x).value])
  {
    assert [x][1..] == [];
    ReadAllStep(s, [x]);
    assert ReadAll(s, []) == Ok([]);
    if Read(s, x).Ok? {
      assert ReadAll(s, [x]).value == [Read(s, x).value];
    }
  }

  /** Defining lazily and then evaluating stores what the eager operation stores. */
  lemma LazyMeansEager<T(!new)>(k: Kernels<T>, s: Instance<T>, op: Op<T>, v: T)
    requires Valid(s) && IsDefinition(op) && SameKernels(k) && NotLazy(s, EagerForm(op).operands)
    requires Apply(k, s, op).Ok? && EagerValue(k, s, EagerForm(op).operands, EagerForm(op).call) == Ok(v)
    ensures Read(After(k, s, EagerForm(op)), op.name) == Ok(v)
    ensures Read(After(k, After(k, s, op), Evaluate(op.name)), op.name) == Ok(v)
  {
    EagerOutcome(k, s, op.name, EagerForm(op).operands, EagerForm(op).call);
    DefinitionDenotes(k, s, op);
    DefinitionIsEager(k, s, op, v);
    ApplyKeepsValid(k, s, op);
    EvaluatedReads(k, After(k, s, op), op.name, v);
  }

  // ---------------------------------------------------------------- runs that see an evaluation

  /** `a` and `b` are stored and `c` is their lazy sum. */
  ghost predicate SumIsDefined<T>(s: Instance<T>, a: T, b: T) {
    s == Instance(map["a" := NameEntry(0, Normal), "b" := NameEntry(1, Normal), "c" := NameEntry(2, Lazy)],
                  map[2 := Add(Literal(a), Literal(b))], map[0 := a, 1 := b], 3)
  }

  lemma SumEvaluates<T>(k: Kernels<T>, s: Instance<T>, a: T, b: T, c: T)
    requires SumIsDefined(s, a, b) && k.add(a, b) == Ok(c)
    ensures After(k, s, Evaluate("c")) == StoreTensor(s, "c", c, Normal)
  {
    SumOfLiterals(k, a, b, c);
  }

  lemma SumOfLiterals<T>(k: Kernels<T>, a: T, b: T, c: T)
    requires k.add(a, b) == Ok(c)
    ensures Eval(k, Add(Literal(a), Literal(b))) == Ok(c)
  {
    assert Eval(k, Literal(a)) == Ok(a) && Eval(k, Literal(b)) == Ok(b);
  }

  lemma SumIsLazy<T>(k: Kernels<T>, s: Instance<T>, a: T, b: T)
    requires s == Instance(map["a" := NameEntry(0, Normal), "b" := NameEntry(1, Normal)], map[], map[0 := a, 1 := b], 2)
    ensures SumIsDefined(After(k, s, LazyBinary("c", "a", "b", OpAdd)), a, b)
  {
  }

  /** An eager operation on a lazy name fails before the name is evaluated, and runs its kernel after. */
  lemma EagerAfterLazyExample<T>(k: Kernels<T>, s: Instance<T>, a: T, b: T, c: T)
    requires s == Instance(map["a" := NameEntry(0, Normal), "b" := NameEntry(1, Normal)], map[], map[0 := a, 1 := b], 2)
    requires k.add(a, b) == Ok(c) && k.eager(BinaryCall(OpAdd), [c, a]).Ok?
    ensures var defined := After(k, s, LazyBinary("c", "a", "b", OpAdd));
            var shown := After(k, defined, Evaluate("c"));
            var d: Op<T> := Eager("d", ["c", "a"], BinaryCall(OpAdd));
            && Answer(k, defined, d) == Err("Tensor not found") && Answer(k, shown, d) == Ok(None)
            && Answer(k, defined, Get("c")) == Err("Tensor not found") && Answer(k, shown, Get("c")) == Ok(Some(c))
  {
    var defined := After(k, s, LazyBinary("c", "a", "b", OpAdd));
    SumIsLazy(k, s, a, b);
    SumEvaluates(k, defined, a, b, c);
    ReadTwo(defined, "c", "a");
    ReadTwo(After(k, defined, Evaluate("c")), "c", "a");
  }

  lemma ReadTwo<T>(s: Instance<T>, x: string, y: string)
    ensures ReadAll(s, [x, y]) == if Read(s, x).Err? then Err(Read(s, x).message)
                                  else if Read(s, y).Err? then Err(Read(s, y).message)
                                  else Ok([Read(s, x).value, Read(s, y).value])
  {
    assert [x, y][1..] == [y] && [y][1..] == [];
    ReadAllStep(s, [x, y]);
    ReadAllStep(s, [y]);
    assert ReadAll(s, []) == Ok([]);
    if Read(s, x).Ok? && Read(s, y).Ok? {
      assert ReadAll(s, [y]).value == [Read(s, y).value];
      assert ReadAll(s, [x, y]).value == [Read(s, x).value] + [Read(s, y).value];
      assert [Read(s, x).value] + [Read(s, y).value] == [Read(s, x).value, Read(s, y).value];
    }
  }

  /** Binding a second name to a lazy tensor and removing the first keeps the second; evaluating in between loses it. */
  lemma EvaluateBindRemoveExample<T>(k: Kernels<T>, s: Instance<T>, v: T, total: T)
    requires k.sum(v) == Ok(total)
    requires s == Instance(map["x" := NameEntry(0, Lazy)], map[0 := Sum(Literal(v))], map[], 1)
    ensures var rest: seq<Op<T>> := [Alias("y", "x"), Remove("x")];
            Valid(s) && Denotes(k, Run(k, s, rest), "y") == Ok(Ok(total)) &&
            Denotes(k, Run(k, After(k, s, Evaluate("x")), rest), "y") == Err("Tensor not found")
  {
    assert Eval(k, Literal(v)) == Ok(v);
    assert Denotes(k, s, "x") == Ok(Ok(total));
    AliasThenRemove(k, s, "x", "y");
    var e := StoreTensor(s, "x", total, Normal);
    assert After(k, s, Evaluate("x")) == e;
    StoreKeepsValid(s, "x", total, Normal);
    AliasThenRemove(k, e, "x", "y");
  }

  /** An alias outlives its source exactly when the source is lazy. */
  lemma AliasThenRemove<T>(k: Kernels<T>, s: Instance<T>, x: string, y: string)
    requires Valid(s) && x in s.names && x != y
    ensures Denotes(k, Run(k, s, [Alias(y, x), Remove(x)]), y)
            == if s.names[x].kind == Lazy then Denotes(k, s, x) else Err("Tensor not found")
  {
    TwoSteps(k, s, [Alias(y, x), Remove(x)]);
    RenameKeepsValid(s, y, x);
    RenameDenotes(k, s, y, x, y);
    DropDenotes(k, Rename(s, y, x), x, y);
    assert SameId(Rename(s, y, x), y, x);
  }

  lemma OneStep<T>(k: Kernels<T>, s: Instance<T>, op: Op<T>)
    ensures Run(k, s, [op]) == After(k, s, op)
  {
    assert [op][1..] == [];
  }

  lemma TwoSteps<T>(k: Kernels<T>, s: Instance<T>, ops: seq<Op<T>>)
    requires |ops| == 2
    ensures Run(k, s, ops) == After(k, After(k, s, ops[0]), ops[1])
  {
    assert ops[1..] == [ops[1]];
    OneStep(k, After(k, s, ops[0]), ops[1]);
  }
}

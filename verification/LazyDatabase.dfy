/**
 The lazy part of `DatabaseInstance` in `src/engine/db.rs`, as an object whose fields are updated in
 place. Each method is one step of the model in LazyEvaluation.
 */
module LazyDatabase {
  import opened Common
  import opened LazyEvaluation

  function Prepended<T>(found: seq<T>, rest: Result<seq<T>>): Result<seq<T>> {
    match rest case Err(e) => Err(e) case Ok(vs) => Ok(found + vs)
  }

  lemma PrependedNone<T>(rest: Result<seq<T>>)
    ensures Prepended([], rest) == rest
  {
    if rest.Ok? {
      assert [] + rest.value == rest.value;
    }
  }

  lemma PrependedOne<T>(found: seq<T>, v: T, rest: Result<seq<T>>)
    ensures Prepended(found, Prepended([v], rest)) == Prepended(found + [v], rest)
  {
    if rest.Ok? {
      assert found + ([v] + rest.value) == (found + [v]) + rest.value;
    }
  }

  class DatabaseInstance<T> {
    var names: map<string, NameEntry>
    var lazyStore: map<nat, Expression<T>>
    var store: map<nat, T>
    var nextId: nat

    ghost function State(): Instance<T>
      reads this
    {
      Instance(names, lazyStore, store, nextId)
    }

    constructor ()
      ensures State() == Instance(map[], map[], map[], 0) && Valid(State())
    {
      names, lazyStore, store, nextId := map[], map[], map[], 0;
    }

    method InsertNamedWithKind(k: Kernels<T>, name: string, tensor: T, kind: Kind)
      requires Valid(State())
      modifies this
      ensures Ok(State()) == Apply(k, old(State()), Insert(name, tensor, kind)) && Valid(State())
    {
      StoreKeepsValid(State(), name, tensor, kind);
      var id := nextId;
      nextId := nextId + 1;
      store := store[id := tensor];
      names := names[name := NameEntry(id, kind)];
    }

    method BindResource(k: Kernels<T>, alias: string, source: string) returns (ok: bool)
      requires Valid(State())
      modifies this
      ensures State() == After(k, old(State()), Alias(alias, source)) && Valid(State())
      ensures ok == Apply(k, old(State()), Alias(alias, source)).Ok?
    {
      ok := source in names;
      if ok {
        RenameKeepsValid(State(), alias, source);
        names := names[alias := names[source]];
      }
    }

    method RemoveTensor(k: Kernels<T>, name: string) returns (removed: bool)
      requires Valid(State())
      modifies this
      ensures State() == After(k, old(State()), Remove(name)) && Valid(State())
      ensures removed <==> name in old(names) && old(names)[name].id in old(store)
    {
      removed := false;
      if name in names {
        DropKeepsValid(State(), name);
        var entry := names[name];
        names := names - {name};
        removed := entry.id in store;
        store := store - {entry.id};
      }
    }

    /** `get` and `get_with_kind`. */
    method Get(k: Kernels<T>, name: string) returns (r: Result<T>)
      ensures r == Read(State(), name) && After(k, State(), LazyEvaluation.Get(name)) == State()
      ensures r.Ok? ==> Answer(k, State(), LazyEvaluation.Get(name)) == Ok(Some(r.value))
      ensures r.Err? ==> Answer(k, State(), LazyEvaluation.Get(name)) == Err(r.message)
    {
      if name !in names {
        return Err("name not found");
      }
      if names[name].id !in store {
        return Err("Tensor not found");
      }
      return Ok(store[names[name].id]);
    }

    /** The eager operations: look the operands up one after another, run the kernel, store the result. */
    method EvalEager(k: Kernels<T>, output: string, operands: seq<string>, call: Call) returns (ok: bool)
      requires Valid(State())
      modifies this
      ensures State() == After(k, old(State()), Eager(output, operands, call)) && Valid(State())
      ensures ok == Apply(k, old(State()), Eager(output, operands, call)).Ok?
    {
      var found: seq<T> := [];
      assert operands[0..] == operands;
      PrependedNone(ReadAll(State(), operands));
      for i := 0 to |operands|
        invariant State() == old(State())
        invariant ReadAll(State(), operands) == Prepended(found, ReadAll(State(), operands[i..]))
      {
        var r := Get(k, operands[i]);
        ReadAllStep(State(), operands[i..]);
        assert operands[i..][1..] == operands[i + 1..];
        if r.Err? {
          return false;
        }
        PrependedOne(found, r.value, ReadAll(State(), operands[i + 1..]));
        found := found + [r.value];
      }
      assert operands[|operands|..] == [];
      assert found + [] == found;
      var result := k.eager(call, found);
      if result.Err? {
        return false;
      }
      StoreKeepsValid(State(), output, result.value, ResultKind(State(), call, operands));
      var kind := ResultKind(Instance(names, lazyStore, store, nextId), call, operands);
      var id := nextId;
      nextId := nextId + 1;
      store := store[id := result.value];
      names := names[output := NameEntry(id, kind)];
      return true;
    }

    method GetExpressionOrLiteral(name: string) returns (r: Result<Expression<T>>)
      ensures r == Capture(State(), name)
    {
      if name !in names {
        return Err("name not found");
      }
      var entry := names[name];
      if entry.kind == Lazy {
        if entry.id !in lazyStore {
          return Err("Lazy expression missing");
        }
        return Ok(lazyStore[entry.id]);
      }
      if entry.id !in store {
        return Err("Tensor not found");
      }
      return Ok(Literal(store[entry.id]));
    }

    method Register(name: string, e: Expression<T>)
      requires Valid(State())
      modifies this
      ensures State() == RegisterLazy(old(State()), name, e) && Valid(State())
    {
      RegisterKeepsValid(State(), name, e);
      var id := nextId;
      nextId := nextId + 1;
      names := names[name := NameEntry(id, Lazy)];
      lazyStore := lazyStore[id := e];
    }

    method EvalLazyBinary(k: Kernels<T>, output: string, left: string, right: string, bop: BinaryOp) returns (ok: bool)
      requires Valid(State())
      modifies this
      ensures State() == After(k, old(State()), LazyBinary(output, left, right, bop)) && Valid(State())
      ensures ok == Apply(k, old(State()), LazyBinary(output, left, right, bop)).Ok?
    {
      var l := GetExpressionOrLiteral(left);
      if l.Err? {
        return false;
      }
      var r := GetExpressionOrLiteral(right);
      if r.Err? {
        return false;
      }
      var e := BinaryExpression(bop, l.value, r.value);
      if e.Err? {
        return false;
      }
      Register(output, e.value);
      return true;
    }

    method EvalLazyMatmul(k: Kernels<T>, output: string, left: string, right: string) returns (ok: bool)
      requires Valid(State())
      modifies this
      ensures State() == After(k, old(State()), LazyMatMul(output, left, right)) && Valid(State())
      ensures ok == Apply(k, old(State()), LazyMatMul(output, left, right)).Ok?
    {
      var l := GetExpressionOrLiteral(left);
      if l.Err? {
        return false;
      }
      var r := GetExpressionOrLiteral(right);
      if r.Err? {
        return false;
      }
      Register(output, MatMul(l.value, r.value));
      return true;
    }

    method EvalLazyUnary(k: Kernels<T>, output: string, input: string, uop: UnaryOp) returns (ok: bool)
      requires Valid(State())
      modifies this
      ensures State() == After(k, old(State()), LazyUnary(output, input, uop)) && Valid(State())
      ensures ok == Apply(k, old(State()), LazyUnary(output, input, uop)).Ok?
    {
      var i := GetExpressionOrLiteral(input);
      if i.Err? {
        return false;
      }
      var e := UnaryExpression(uop, i.value);
      if e.Err? {
        return false;
      }
      Register(output, e.value);
      return true;
    }

    /** `evaluate`: nothing is changed unless the expression gives a tensor, and no name changes its value. */
    method EvaluateName(k: Kernels<T>, name: string) returns (ok: bool)
      requires Valid(State())
      modifies this
      ensures State() == After(k, old(State()), Evaluate(name)) && Valid(State())
      ensures ok == Apply(k, old(State()), Evaluate(name)).Ok?
      ensures forall m :: Denotes(k, State(), m) == Denotes(k, old(State()), m)
    {
      ghost var before := State();
      forall m
        ensures Denotes(k, After(k, before, Evaluate(name)), m) == Denotes(k, before, m)
      {
        EvaluateChangesNothing(k, before, name, m);
      }
      ApplyKeepsValid(k, before, Evaluate(name));
      if name !in names {
        return false;
      }
      var entry := names[name];
      if entry.kind != Lazy {
        return true;
      }
      if entry.id !in lazyStore {
        return false;
      }
      var materialized := Eval(k, lazyStore[entry.id]);
      if materialized.Err? {
        return false;
      }
      var id := nextId;
      nextId := nextId + 1;
      store := store[id := materialized.value];
      names := names[name := NameEntry(id, Normal)];
      return true;
    }
  }
}

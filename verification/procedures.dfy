/** Access-checked procedure, function and aggregation calls. The call runs with a narrowed or
    overridden mode installed in the transaction, and a procedure's lazily produced rows are pulled
    with that same mode installed again around every single pull. */
module Procedures {
  import opened Wrappers
  import opened Errors
  import opened Security
  import opened Transactions

  /** Whether a mode's capabilities permit an operation category. */
  predicate Permits(op: Operation, caps: Caps)
  {
    match op
    case ReadOperation => caps.allowsReads
    case WriteOperation => caps.allowsWrites
    case SchemaOperation => caps.allowsSchemaWrites
  }

  /** The static mode a call of each category runs under. */
  function StaticMode(op: Operation): Caps
  {
    match op
    case ReadOperation => READ
    case WriteOperation => TOKEN_WRITE
    case SchemaOperation => FULL
  }

  /** What installing a context hands back: the context to restore when the call is over. */
  datatype Revertable = Revertable(previous: SecurityContext)

  function OverrideWith(tx: Transaction, context: SecurityContext): (r: (Transaction, Revertable))
    ensures r.0.context == context
    ensures r.0.(context := tx.context) == tx
    ensures r.1.previous == tx.context
  {
    (tx.(context := context), Revertable(tx.context))
  }

  function Revert(tx: Transaction, revertable: Revertable): (r: Transaction)
    ensures r.context == revertable.previous
    ensures r.(context := tx.context) == tx
  {
    tx.(context := revertable.previous)
  }

  /** A procedure as the registry runs it, given the transaction as it is while it runs: the
      initial call, which may fail, and the row its result yields at each position, or none past
      the last one. A procedure reads the transaction; what it writes to it is not modelled, so
      once the previous security context is restored the transaction is as it was before the call. */
  datatype Procedure<V> = Procedure(
    invoke: Transaction -> Result<(), KernelError>,
    row: (Transaction, nat) -> Result<Option<V>, KernelError>)

  /** The transaction after a call, and what the call returned or threw. */
  datatype Step<T> = Step(tx: Transaction, result: Result<T, KernelError>)

  /** The iterator handed back by a procedure call: the context captured at call time, and the
      position of the underlying result. */
  datatype ProcedureIterator<V> = ProcedureIterator(context: SecurityContext, procedure: Procedure<V>, position: nat)

  /** Pulls on the underlying result, with whatever transaction is current. */
  function RawHasNext<V>(during: Transaction, p: Procedure<V>, position: nat): Result<bool, KernelError>
  {
    match p.row(during, position)
    case Success(row) => Success(row.Some?)
    case Failure(e) => Failure(e)
  }

  function RawNext<V>(during: Transaction, p: Procedure<V>, position: nat): (Result<V, KernelError>, nat)
  {
    match p.row(during, position)
    case Success(Some(v)) => (Success(v), position + 1)
    case Success(None) => (Failure(NoSuchElement), position)
    case Failure(e) => (Failure(e), position)
  }

  /** `callProcedure`: the transaction must be open; the procedure is invoked with `mode` installed,
      the previous context is restored on every outcome, and the iterator keeps the installed context. */
  function CallProcedure<V>(tx: Transaction, p: Procedure<V>, mode: AccessMode): (r: Step<ProcedureIterator<V>>)
    ensures r.tx == tx
    ensures !tx.open ==> r.result == Failure(NotInTransaction)
    ensures tx.open ==> (r.result.Success? <==> p.invoke(tx.(context := tx.context.WithMode(mode))).Success?)
    ensures tx.open && r.result.Failure? ==> r.result.error == p.invoke(tx.(context := tx.context.WithMode(mode))).error
    ensures r.result.Success? ==> r.result.value.context == tx.context.WithMode(mode) && r.result.value.position == 0
    ensures r.result.Success? ==> r.result.value.procedure == p
  {
    if !tx.open then Step(tx, Failure(NotInTransaction))
    else
      var context := tx.context.WithMode(mode);
      var (during, revertable) := OverrideWith(tx, context);
      var outcome := p.invoke(during);
      var after := Revert(during, revertable);
      match outcome
      case Success(_) => Step(after, Success(ProcedureIterator(context, p, 0)))
      case Failure(e) => Step(after, Failure(e))
  }

  /** `hasNext` of the returned iterator: the captured context is installed for the pull and the
      previous one restored afterwards. */
  function HasNext<V>(tx: Transaction, it: ProcedureIterator<V>): (r: Step<bool>)
    ensures r.tx == tx
    ensures r.result == RawHasNext(tx.(context := it.context), it.procedure, it.position)
  {
    var (during, revertable) := OverrideWith(tx, it.context);
    var result := RawHasNext(during, it.procedure, it.position);
    Step(Revert(during, revertable), result)
  }

  /** The transaction after a `next`, what it returned or threw, and the iterator after it. */
  datatype Pulled<V> = Pulled(tx: Transaction, result: Result<V, KernelError>, rest: ProcedureIterator<V>)

  /** `next` of the returned iterator, scoped like `hasNext`. */
  function Next<V>(tx: Transaction, it: ProcedureIterator<V>): (r: Pulled<V>)
    ensures r.tx == tx
    ensures r.rest.context == it.context
    ensures (r.result, r.rest.position) == RawNext(tx.(context := it.context), it.procedure, it.position)
  {
    var (during, revertable) := OverrideWith(tx, it.context);
    var (result, position) := RawNext(during, it.procedure, it.position);
    Pulled(Revert(during, revertable), result, it.(position := position))
  }

  /** `procedureCallRead`, `procedureCallWrite` and `procedureCallSchema`: the current mode must permit
      the category, checked before anything else; the procedure then runs under the current mode
      restricted to the category's static mode. */
  function ProcedureCall<V>(tx: Transaction, p: Procedure<V>, op: Operation): (r: Step<ProcedureIterator<V>>)
    ensures r.tx == tx
    ensures !Permits(op, Allowed(tx.context.mode)) ==> r.result == Failure(AccessViolation(op, tx.context.subject))
    ensures Permits(op, Allowed(tx.context.mode)) && !tx.open ==> r.result == Failure(NotInTransaction)
    ensures r.result.Success? ==> r.result.value.context.subject == tx.context.subject
    ensures r.result.Success? ==> r.result.value.procedure == p && r.result.value.position == 0
    ensures r.result.Success? ==> Allowed(r.result.value.context.mode) == Intersect(Allowed(tx.context.mode), StaticMode(op))
    ensures Permits(op, Allowed(tx.context.mode)) && tx.open ==>
              var during := tx.(context := tx.context.WithMode(Restricted(tx.context.mode, StaticMode(op))));
              && (r.result.Success? <==> p.invoke(during).Success?)
              && (r.result.Failure? ==> r.result.error == p.invoke(during).error)
  {
    var mode := tx.context.mode;
    if !Permits(op, Allowed(mode)) then Step(tx, Failure(AccessViolation(op, tx.context.subject)))
    else CallProcedure(tx, p, Restricted(mode, StaticMode(op)))
  }

  /** The `...Override` variants: no check, and the procedure runs with exactly the category's static mode. */
  function ProcedureCallOverride<V>(tx: Transaction, p: Procedure<V>, op: Operation): (r: Step<ProcedureIterator<V>>)
    ensures r.tx == tx
    ensures !tx.open ==> r.result == Failure(NotInTransaction)
    ensures r.result.Success? ==> r.result.value.context.subject == tx.context.subject
    ensures r.result.Success? ==> r.result.value.procedure == p && r.result.value.position == 0
    ensures r.result.Success? ==> Allowed(r.result.value.context.mode) == StaticMode(op)
    ensures tx.open ==>
              var during := tx.(context := tx.context.WithMode(Overridden(tx.context.mode, StaticMode(op))));
              && (r.result.Success? <==> p.invoke(during).Success?)
              && (r.result.Failure? ==> r.result.error == p.invoke(during).error)
  {
    CallProcedure(tx, p, Overridden(tx.context.mode, StaticMode(op)))
  }

  /** `callFunction` and the private `aggregationFunction`: one call with `mode` installed, restored after. */
  function CallFunction<T>(tx: Transaction, f: Transaction -> Result<T, KernelError>, mode: AccessMode): (r: Step<T>)
    ensures r.tx == tx
    ensures !tx.open ==> r.result == Failure(NotInTransaction)
    ensures tx.open ==> r.result == f(tx.(context := tx.context.WithMode(mode)))
  {
    if !tx.open then Step(tx, Failure(NotInTransaction))
    else
      var (during, revertable) := OverrideWith(tx, tx.context.WithMode(mode));
      var result := f(during);
      Step(Revert(during, revertable), result)
  }

  /** `functionCall` and `aggregationFunction`: reads must be permitted, and the function, or the
      creation of the aggregator, runs restricted to READ. Only the creation of an aggregator is
      scoped: the aggregator it hands back is used later without the restriction. */
  function ReadCall<T>(tx: Transaction, f: Transaction -> Result<T, KernelError>): (r: Step<T>)
    ensures r.tx == tx
    ensures !Allowed(tx.context.mode).allowsReads ==> r.result == Failure(AccessViolation(ReadOperation, tx.context.subject))
    ensures Allowed(tx.context.mode).allowsReads && !tx.open ==> r.result == Failure(NotInTransaction)
    ensures Allowed(tx.context.mode).allowsReads && tx.open ==>
              r.result == f(tx.(context := tx.context.WithMode(Restricted(tx.context.mode, READ))))
  {
    if !Allowed(tx.context.mode).allowsReads then Step(tx, Failure(AccessViolation(ReadOperation, tx.context.subject)))
    else CallFunction(tx, f, Restricted(tx.context.mode, READ))
  }

  /** `functionCallOverride` and `aggregationFunctionOverride`: no check; the call runs with READ. */
  function ReadCallOverride<T>(tx: Transaction, f: Transaction -> Result<T, KernelError>): (r: Step<T>)
    ensures r.tx == tx
    ensures !tx.open ==> r.result == Failure(NotInTransaction)
    ensures tx.open ==> r.result == f(tx.(context := tx.context.WithMode(Overridden(tx.context.mode, READ))))
  {
    CallFunction(tx, f, Overridden(tx.context.mode, READ))
  }

  /** A function that reports the capabilities it runs with. */
  function ModeProbe(): Transaction -> Result<Caps, KernelError>
  {
    (t: Transaction) => Success(Allowed(t.context.mode))
  }

  /** A checked read call never sees more than reads and what the caller already had, while the
      override sees exactly reads whatever the caller had. */
  lemma ReadCallSeesAtMostRead(tx: Transaction)
    requires tx.open && Allowed(tx.context.mode).allowsReads
    ensures ReadCall(tx, ModeProbe()).result == Success(Intersect(Allowed(tx.context.mode), READ))
    ensures !ReadCall(tx, ModeProbe()).result.value.allowsWrites
    ensures ReadCallOverride(tx, ModeProbe()).result == Success(READ)
  {
  }

  /** What the caller does with a returned iterator: pull it, or let the ambient context change
      (for instance a revoked privilege) between pulls. */
  datatype Action = CallHasNext | CallNext | AmbientChanged(context: SecurityContext)

  /** What the caller sees from each pull. */
  datatype Observation<V> = HadNext(hasNext: Result<bool, KernelError>) | GotNext(next: Result<V, KernelError>)

  /** The caller driving the iterator through `actions`: the transaction afterwards, and what each pull returned. */
  function Run<V>(tx: Transaction, it: ProcedureIterator<V>, actions: seq<Action>): (Transaction, seq<Observation<V>>)
    decreases |actions|
  {
    if |actions| == 0 then (tx, [])
    else match actions[0]
      case CallHasNext =>
        var step := HasNext(tx, it);
        var rest := Run(step.tx, it, actions[1..]);
        (rest.0, [HadNext(step.result)] + rest.1)
      case CallNext =>
        var pulled := Next(tx, it);
        var rest := Run(pulled.tx, pulled.rest, actions[1..]);
        (rest.0, [GotNext(pulled.result)] + rest.1)
      case AmbientChanged(context) =>
        Run(tx.(context := context), it, actions[1..])
  }

  /** The reference: the same pulls made directly on the underlying result in a transaction fixed
      once and for all, ambient changes ignored. */
  function Direct<V>(during: Transaction, p: Procedure<V>, position: nat, actions: seq<Action>): seq<Observation<V>>
    decreases |actions|
  {
    if |actions| == 0 then []
    else match actions[0]
      case CallHasNext => [HadNext(RawHasNext(during, p, position))] + Direct(during, p, position, actions[1..])
      case CallNext =>
        var (result, next) := RawNext(during, p, position);
        [GotNext(result)] + Direct(during, p, next, actions[1..])
      case AmbientChanged(_) => Direct(during, p, position, actions[1..])
  }

  /** The ambient context after the caller's actions. */
  function LastAmbient(initial: SecurityContext, actions: seq<Action>): SecurityContext
    decreases |actions|
  {
    if |actions| == 0 then initial
    else match actions[0]
      case AmbientChanged(context) => LastAmbient(context, actions[1..])
      case _ => LastAmbient(initial, actions[1..])
  }

  /** Every pull sees the context captured when the procedure was called, whatever the ambient
      context is at the time of the pull, and afterwards the transaction is left with the ambient
      context the caller last set. */
  lemma {:induction false} PullsSeeCapturedContext<V>(tx: Transaction, it: ProcedureIterator<V>, actions: seq<Action>)
    ensures Run(tx, it, actions).1 == Direct(tx.(context := it.context), it.procedure, it.position, actions)
    ensures Run(tx, it, actions).0 == tx.(context := LastAmbient(tx.context, actions))
    decreases |actions|
  {
    if |actions| > 0 {
      match actions[0]
      case CallHasNext =>
        PullsSeeCapturedContext(tx, it, actions[1..]);
      case CallNext =>
        var pulled := Next(tx, it);
        PullsSeeCapturedContext(pulled.tx, pulled.rest, actions[1..]);
      case AmbientChanged(context) =>
        var changed := tx.(context := context);
        assert changed.(context := it.context) == tx.(context := it.context);
        PullsSeeCapturedContext(changed, it, actions[1..]);
    }
  }

  /** A procedure whose single row reports the capabilities it sees. */
  function CapsProbe(): Procedure<Caps>
  {
    Procedure((t: Transaction) => Success(()),
              (t: Transaction, n: nat) => if n == 0 then Success(Some(Allowed(t.context.mode))) else Success(None))
  }

  /** A write procedure called with the override keeps its TOKEN_WRITE mode on later pulls even when
      the ambient context is revoked to nothing between the call and the pulls. */
  lemma OverrideSurvivesRevocation(tx: Transaction, revoked: SecurityContext)
    requires tx.open
    requires Allowed(revoked.mode) == Caps(false, false, false, false)
    ensures ProcedureCallOverride(tx, CapsProbe(), WriteOperation).result.Success?
    ensures var it := ProcedureCallOverride(tx, CapsProbe(), WriteOperation).result.value;
            Run(tx, it, [AmbientChanged(revoked), CallHasNext, CallNext, CallHasNext]).1
              == [HadNext(Success(true)), GotNext(Success(TOKEN_WRITE)), HadNext(Success(false))]
  {
    var it := ProcedureCallOverride(tx, CapsProbe(), WriteOperation).result.value;
    var actions := [AmbientChanged(revoked), CallHasNext, CallNext, CallHasNext];
    PullsSeeCapturedContext(tx, it, actions);
    var during := tx.(context := it.context);
    var p := CapsProbe();
    assert Allowed(during.context.mode) == TOKEN_WRITE;
    assert actions[1..] == [CallHasNext, CallNext, CallHasNext];
    assert Direct(during, p, 1, [CallHasNext]) == [HadNext(Success(false))] by {
      assert [CallHasNext][1..] == [];
    }
    assert Direct(during, p, 0, [CallNext, CallHasNext]) == [GotNext(Success(TOKEN_WRITE))] + [HadNext(Success(false))] by {
      assert [CallNext, CallHasNext][1..] == [CallHasNext];
      assert RawNext(during, p, 0) == (Success(TOKEN_WRITE), 1);
    }
    assert Direct(during, p, 0, [CallHasNext, CallNext, CallHasNext])
        == [HadNext(Success(true))] + Direct(during, p, 0, [CallNext, CallHasNext]) by {
      assert [CallHasNext, CallNext, CallHasNext][1..] == [CallNext, CallHasNext];
    }
  }

  /** A write procedure called from inside a read procedure is refused even when the ambient mode
      of the outer caller allows writes: the inner call sees the outer call's READ restriction. */
  lemma NestedWriteInsideReadIsRefused<V>(tx: Transaction, inner: Procedure<V>)
    requires Allowed(tx.context.mode).allowsWrites && Allowed(tx.context.mode).allowsReads
    ensures var during := tx.(context := tx.context.WithMode(Restricted(tx.context.mode, READ)));
            ProcedureCall(during, inner, WriteOperation).result == Failure(AccessViolation(WriteOperation, tx.context.subject))
  {
  }
}

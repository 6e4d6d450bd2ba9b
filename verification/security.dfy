/** Access modes and security contexts: what a caller may do while a call runs. */
module Security {

  /** The capabilities an access mode grants. */
  datatype Caps = Caps(allowsReads: bool, allowsWrites: bool, allowsTokenWrites: bool, allowsSchemaWrites: bool)

  /** The static modes the overlay narrows procedure calls to. */
  const READ: Caps := Caps(true, false, false, false)
  const TOKEN_WRITE: Caps := Caps(true, true, true, false)
  const FULL: Caps := Caps(true, true, true, true)

  function Intersect(a: Caps, b: Caps): Caps
  {
    Caps(a.allowsReads && b.allowsReads, a.allowsWrites && b.allowsWrites,
         a.allowsTokenWrites && b.allowsTokenWrites, a.allowsSchemaWrites && b.allowsSchemaWrites)
  }

  /** Every capability `a` grants, `b` grants too. */
  predicate Within(a: Caps, b: Caps)
  {
    && (a.allowsReads ==> b.allowsReads)
    && (a.allowsWrites ==> b.allowsWrites)
    && (a.allowsTokenWrites ==> b.allowsTokenWrites)
    && (a.allowsSchemaWrites ==> b.allowsSchemaWrites)
  }

  /** An access mode: a fixed one, or one layered over the ambient mode of an enclosing call.
      A restricted mode grants what both the original and the restriction grant; an overridden
      mode grants exactly what the override grants, whatever the original did. */
  datatype AccessMode =
    | Static(caps: Caps)
    | Restricted(original: AccessMode, restricting: Caps)
    | Overridden(overridden: AccessMode, overriding: Caps)

  function Allowed(m: AccessMode): Caps
  {
    match m
    case Static(c) => c
    case Restricted(original, restricting) => Intersect(Allowed(original), restricting)
    case Overridden(_, overriding) => overriding
  }

  /** The innermost mode a stack of restrictions was layered on. */
  function Root(m: AccessMode): AccessMode
  {
    match m
    case Restricted(original, _) => Root(original)
    case _ => m
  }

  /** However many restrictions are stacked on a mode, the result grants nothing the mode
      they were stacked on does not grant. The stack ends at the first static or overridden
      mode, so this says nothing about what an override may grant. */
  lemma {:induction false} RestrictionsNeverWiden(m: AccessMode)
    ensures Within(Allowed(m), Allowed(Root(m)))
  {
    match m
    case Restricted(original, _) => RestrictionsNeverWiden(original);
    case _ =>
  }

  /** An override is not bounded by the mode it overrides: it grants exactly its own capabilities,
      so a mode that grants nothing overridden with FULL grants everything. */
  lemma OverrideGrantsExactly(m: AccessMode, c: Caps)
    ensures Allowed(Overridden(m, c)) == c
    ensures Root(Overridden(m, c)) == Overridden(m, c)
    ensures Allowed(Overridden(Static(Caps(false, false, false, false)), FULL)) == FULL
  {
  }

  /** The acting principal and the mode it currently acts under. */
  datatype SecurityContext = SecurityContext(subject: string, mode: AccessMode)
  {
    function WithMode(m: AccessMode): (r: SecurityContext)
      ensures r.subject == subject && r.mode == m
    {
      SecurityContext(subject, m)
    }
  }
}

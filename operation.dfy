/** A pending operation and its dictionary identity. */
module Operations {
  import opened Wrappers
  import opened Primitives
  import opened OperationTypes

  /**
   * A pending operation: its kind, the encoded value (present for sets) and the key.
   * The Swift class has only `let` fields, so a datatype value models it exactly:
   * the initialiser stores the three arguments and nothing can change them.
   */
  datatype Operation = Operation(kind: OperationType, value: Option<Bytes>, key: string) {

    /** The identity under which the builder stores the operation: "<raw value>-<key>". */
    function InternalKey(): (ik: string)
      ensures |ik| == |key| + 2
      ensures ik[..1] == RawValue(kind) && ik[1] == '-' && ik[2..] == key
    {
      RawValue(kind) + "-" + key
    }
  }

  /** Reads an internal key back into its kind and key; the inverse of `InternalKey`. */
  function ParseInternalKey(ik: string): (r: Option<(OperationType, string)>)
    ensures r.Some? ==> Operation(r.value.0, None, r.value.1).InternalKey() == ik
  {
    if |ik| < 2 || ik[1] != '-' then None
    else
      match FromRawValue(ik[..1])
      case Some(t) =>
        assert ik == ik[..1] + "-" + ik[2..];
        Some((t, ik[2..]))
      case None => None
  }

  /** Parsing an operation's internal key recovers its kind and key. */
  lemma ParseInternalKeyInverse(op: Operation)
    ensures ParseInternalKey(op.InternalKey()) == Some((op.kind, op.key))
  {
    var ik := op.InternalKey();
    FromRawValueInverse(op.kind);
    assert ik[..1] == RawValue(op.kind);
  }

  /** Two operations share an internal key exactly when they have the same kind and key. */
  lemma InternalKeyInjective(a: Operation, b: Operation)
    ensures a.InternalKey() == b.InternalKey() <==> a.kind == b.kind && a.key == b.key
  {
    if a.InternalKey() == b.InternalKey() {
      ParseInternalKeyInverse(a);
      ParseInternalKeyInverse(b);
    }
  }

  /** Operations of different kinds never share an internal key, even for the same key. */
  lemma DifferentKindsNeverCollide(a: Operation, b: Operation)
    requires a.kind != b.kind
    ensures a.InternalKey() != b.InternalKey()
  {
    InternalKeyInjective(a, b);
  }
}

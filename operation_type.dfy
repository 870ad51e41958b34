/** The kind of a pending keychain operation and its one-character raw value. */
module OperationTypes {
  import opened Wrappers

  /** The three operation kinds a batch can hold. */
  datatype OperationType = Set | Remove | Get

  /** Writes are sets and removals; gets are reads. */
  predicate IsWrite(t: OperationType) {
    t == Set || t == Remove
  }

  /** The raw value of an operation kind: a single character, never the separator '-'. */
  function RawValue(t: OperationType): (r: string)
    ensures |r| == 1 && r[0] != '-'
  {
    match t
    case Set => "s"
    case Remove => "r"
    case Get => "g"
  }

  /** Swift's `init?(rawValue:)`: the kind whose raw value is `s`, if there is one. */
  function FromRawValue(s: string): (r: Option<OperationType>)
    ensures r.Some? ==> RawValue(r.value) == s
    ensures r.None? ==> forall t :: RawValue(t) != s
  {
    if s == "s" then Some(Set)
    else if s == "r" then Some(Remove)
    else if s == "g" then Some(Get)
    else None
  }

  /** The raw values are exactly "s", "r" and "g", and the three kinds are distinct. */
  lemma RawValues()
    ensures RawValue(Set) == "s" && RawValue(Remove) == "r" && RawValue(Get) == "g"
    ensures |{Set, Remove, Get}| == 3
  {
  }

  /** Distinct kinds have distinct raw values. */
  lemma RawValueInjective(a: OperationType, b: OperationType)
    ensures RawValue(a) == RawValue(b) <==> a == b
  {
  }

  /** Constructing from a raw value inverts `RawValue`. */
  lemma FromRawValueInverse(t: OperationType)
    ensures FromRawValue(RawValue(t)) == Some(t)
  {
  }
}

/**
 * `SCKeychainOperationBuilder`: a table of pending operations, keyed by each operation's
 * internal key, that `apply()` hands to the manager in one batch. The table is a map
 * field the setters reassign; the pure functions and lemmas below say what a table
 * holds and what applying it does to the keychain.
 */
module Builder {
  import opened Wrappers
  import opened Primitives
  import opened OperationTypes
  import opened Operations
  import opened Keychain
  import opened Options
  import opened Manager
  import ValueConverter
  import Utf8

  /** `SCKeychainOperationBuilderError`. */
  datatype BuilderError = InconsistentOperations

  /** What `apply()` throws: the builder's own error, or whatever the manager threw. */
  datatype ApplyError = BuilderFailure(builderError: BuilderError) | ManagerFailure(managerError: ManagerError)

  /** The table `internalKey -> operation` the builder keeps. */
  type Table = map<string, Operation>

  /**
   * The table's invariant: every entry is stored under its own internal key, a set
   * entry carries a value and a remove entry carries none.
   */
  predicate WellKeyed(operations: Table) {
    forall ik :: ik in operations ==>
      operations[ik].InternalKey() == ik &&
      (operations[ik].kind == Set ==> operations[ik].value.Some?) &&
      (operations[ik].kind == Remove ==> operations[ik].value.None?)
  }

  /** The public setters only ever add sets and removes. */
  predicate WritesOnly(operations: Table) {
    forall ik :: ik in operations ==> IsWrite(operations[ik].kind)
  }

  /** The entry a setter writes: the operation, stored under its internal key. */
  function Insert(operations: Table, op: Operation): (t: Table)
    ensures t.Keys == operations.Keys + {op.InternalKey()}
    ensures forall ik :: ik in operations && ik != op.InternalKey() ==> t[ik] == operations[ik]
    ensures t[op.InternalKey()] == op
  {
    operations[op.InternalKey() := op]
  }

  /** A set is empty exactly when it has no element. */
  lemma CardinalityPositive(s: set<string>)
    ensures |s| > 0 <==> exists x :: x in s
  {
    if |s| > 0 {
      var x :| x in s;
    } else {
      assert s == {};
    }
  }

  /** The keys of the pending sets and removes. */
  function WriteKeys(operations: Table): (s: set<string>)
    ensures forall ik :: ik in s <==> ik in operations && IsWrite(operations[ik].kind)
  {
    set ik | ik in operations && IsWrite(operations[ik].kind)
  }

  /** The keys of the pending gets. */
  function ReadKeys(operations: Table): (s: set<string>)
    ensures forall ik :: ik in s <==> ik in operations && operations[ik].kind == Get
  {
    set ik | ik in operations && operations[ik].kind == Get
  }

  /**
   * `hasInconsistentOperations()`: the number of writes and the number of reads are both
   * positive, that is, some entry is a set or a remove and some entry is a get.
   */
  function HasInconsistentOperations(operations: Table): (r: bool)
    ensures r <==>
      (exists ik :: ik in operations && IsWrite(operations[ik].kind)) &&
      (exists ik :: ik in operations && operations[ik].kind == Get)
  {
    CardinalityPositive(WriteKeys(operations));
    CardinalityPositive(ReadKeys(operations));
    |WriteKeys(operations)| > 0 && |ReadKeys(operations)| > 0
  }

  /** A table reached through the public setters is never inconsistent. */
  lemma WritesOnlyConsistent(operations: Table)
    requires WritesOnly(operations)
    ensures !HasInconsistentOperations(operations)
  {
  }

  /** Writing a set or a remove keeps the table well keyed and free of gets. */
  lemma InsertKeepsInvariant(operations: Table, op: Operation)
    requires WellKeyed(operations) && WritesOnly(operations)
    requires (op.kind == Set && op.value.Some?) || (op.kind == Remove && op.value.None?)
    ensures WellKeyed(Insert(operations, op)) && WritesOnly(Insert(operations, op))
  {
    var t := Insert(operations, op);
    forall ik | ik in t
      ensures t[ik].InternalKey() == ik && IsWrite(t[ik].kind)
    {
      if ik != op.InternalKey() {
        assert t[ik] == operations[ik];
      }
    }
  }

  /** Setting a key twice keeps only the last value: the last write wins. */
  lemma LastWriteWins(operations: Table, key: string, first: Bytes, second: Bytes)
    ensures Insert(Insert(operations, Operation(Set, Some(first), key)), Operation(Set, Some(second), key)) ==
            Insert(operations, Operation(Set, Some(second), key))
  {
    var a := Operation(Set, Some(first), key);
    var b := Operation(Set, Some(second), key);
    assert a.InternalKey() == b.InternalKey();
  }

  /** Removing a key leaves a pending set of the same key in place beside the remove. */
  lemma RemoveKeepsPendingSet(operations: Table, key: string, value: Bytes)
    ensures var setOp := Operation(Set, Some(value), key);
      var removeOp := Operation(Remove, None, key);
      var t := Insert(Insert(operations, setOp), removeOp);
      t[setOp.InternalKey()] == setOp && t[removeOp.InternalKey()] == removeOp
  {
    DifferentKindsNeverCollide(Operation(Set, Some(value), key), Operation(Remove, None, key));
  }

  /**
   * `operations.values`: `keys` lists every key of the table exactly once, in an order
   * the dictionary does not specify, and `ops` holds the values in that order.
   */
  ghost predicate IsEnumeration(operations: Table, keys: seq<string>, ops: seq<Operation>) {
    |keys| == |ops| == |operations| &&
    (forall i, j :: 0 <= i < j < |keys| ==> keys[i] != keys[j]) &&
    (forall ik :: ik in operations <==> ik in keys) &&
    (forall i :: 0 <= i < |keys| ==> keys[i] in operations && ops[i] == operations[keys[i]])
  }

  /** The values of a table, in an order chosen by the (unspecified) dictionary. */
  method Values(operations: Table) returns (ops: seq<Operation>, ghost keys: seq<string>)
    ensures IsEnumeration(operations, keys, ops)
  {
    ops := [];
    keys := [];
    var rest := operations.Keys;
    while rest != {}
      invariant |keys| == |ops| && |keys| + |rest| == |operations|
      invariant forall i, j :: 0 <= i < j < |keys| ==> keys[i] != keys[j]
      invariant forall ik :: ik in operations <==> ik in rest || ik in keys
      invariant forall ik :: ik in rest ==> ik !in keys
      invariant forall i :: 0 <= i < |keys| ==> keys[i] in operations && ops[i] == operations[keys[i]]
      decreases |rest|
    {
      var ik :| ik in rest;
      ops := ops + [operations[ik]];
      keys := keys + [ik];
      rest := rest - {ik};
    }
  }

  /** No key has more than one pending entry (no set and remove of the same key). */
  predicate OneEntryPerKey(operations: Table) {
    forall a, b :: a in operations && b in operations && operations[a].key == operations[b].key ==> a == b
  }

  /** Enumerating a well-keyed table with one entry per key gives operations on distinct keys. */
  lemma EnumerationDistinct(operations: Table, keys: seq<string>, ops: seq<Operation>)
    requires OneEntryPerKey(operations)
    requires IsEnumeration(operations, keys, ops)
    ensures DistinctKeys(ops)
  {
  }

  /** Two enumerations of one table hold the same operations. */
  lemma EnumerationsSameElements(operations: Table, keys1: seq<string>, ops1: seq<Operation>,
                                 keys2: seq<string>, ops2: seq<Operation>)
    requires IsEnumeration(operations, keys1, ops1) && IsEnumeration(operations, keys2, ops2)
    ensures forall op :: op in ops1 <==> op in ops2
  {
    forall op
      ensures op in ops1 ==> op in ops2
      ensures op in ops2 ==> op in ops1
    {
      if op in ops1 {
        var i :| 0 <= i < |ops1| && ops1[i] == op;
        assert keys1[i] in keys2;
        var j :| 0 <= j < |keys2| && keys2[j] == keys1[i];
        assert ops2[j] == op;
      }
      if op in ops2 {
        var j :| 0 <= j < |ops2| && ops2[j] == op;
        assert keys2[j] in keys1;
        var i :| 0 <= i < |keys1| && keys1[i] == keys2[j];
        assert ops1[i] == op;
      }
    }
  }

  /**
   * With one entry per key, the unspecified order of `operations.values` does not matter:
   * every enumeration succeeds or fails together, and successful ones leave the same
   * keychain.
   */
  lemma EnumerationOrderIrrelevant(store: Store, refuse: Refusal, service: string, operations: Table,
                                   keys1: seq<string>, ops1: seq<Operation>,
                                   keys2: seq<string>, ops2: seq<Operation>, accessible: Accessibility)
    requires OneEntryPerKey(operations)
    requires IsEnumeration(operations, keys1, ops1) && IsEnumeration(operations, keys2, ops2)
    ensures ApplyEffect(store, refuse, service, ops1, accessible).outcome.Pass? <==>
            ApplyEffect(store, refuse, service, ops2, accessible).outcome.Pass?
    ensures ApplyEffect(store, refuse, service, ops1, accessible).outcome.Pass? ==>
            ApplyEffect(store, refuse, service, ops1, accessible).store ==
            ApplyEffect(store, refuse, service, ops2, accessible).store
  {
    EnumerationDistinct(operations, keys1, ops1);
    EnumerationDistinct(operations, keys2, ops2);
    EnumerationsSameElements(operations, keys1, ops1, keys2, ops2);
    OrderIndependent(store, refuse, service, ops1, ops2, accessible);
  }

  /**
   * A set and a remove of the same key do not commute: a builder holding both can be
   * enumerated either way, and the two orders end differently on an empty keychain.
   */
  lemma SetAndRemoveOrderMatters(service: string, key: string, value: Bytes, accessible: Accessibility)
    ensures var setOp := Operation(Set, Some(value), key);
      var removeOp := Operation(Remove, None, key);
      var operations := Insert(Insert(map[], setOp), removeOp);
      var refuse: Refusal := (c, id) => None;
      IsEnumeration(operations, [setOp.InternalKey(), removeOp.InternalKey()], [setOp, removeOp]) &&
      IsEnumeration(operations, [removeOp.InternalKey(), setOp.InternalKey()], [removeOp, setOp]) &&
      ApplyEffect(map[], refuse, service, [setOp, removeOp], accessible).outcome.Pass? &&
      ApplyEffect(map[], refuse, service, [removeOp, setOp], accessible).outcome.Fail?
  {
    var setOp := Operation(Set, Some(value), key);
    var removeOp := Operation(Remove, None, key);
    DifferentKindsNeverCollide(setOp, removeOp);
    SameKeyOrderMatters(service, key, value, accessible);
  }

  /**
   * In a successful batch on distinct keys, a set's key reads back the bytes it set and a
   * remove's key reads nil (unless the read itself is refused).
   */
  lemma ApplyThenReadAt(store: Store, refuse: Refusal, service: string, ops: seq<Operation>, i: nat,
                        accessible: Accessibility)
    requires DistinctKeys(ops) && i < |ops|
    requires ApplyEffect(store, refuse, service, ops, accessible).outcome.Pass?
    requires refuse(CopyCall, IdOf(service, ops[i].key)).None?
    ensures var after := ApplyEffect(store, refuse, service, ops, accessible).store;
      (ops[i].kind == Set ==> StoredData(after, refuse, service, ops[i].key) == ops[i].value) &&
      (ops[i].kind == Remove ==> StoredData(after, refuse, service, ops[i].key) == None)
  {
    var after := ApplyEffect(store, refuse, service, ops, accessible).store;
    ApplyEffectDistinct(store, refuse, service, ops, accessible);
    ApplyEffectDistinctPass(store, refuse, service, ops, accessible);
    var step := StepEffect(store, refuse, service, ops[i], accessible);
    assert step.outcome.Pass?;
    assert Agree(after, step.store, IdOf(service, ops[i].key));
  }

  /**
   * Set-then-read through a whole batch: when applying a table with one entry per key
   * succeeds, every set key reads back the bytes that were set and every removed key
   * reads nil (unless the read itself is refused).
   */
  lemma ApplyThenRead(store: Store, refuse: Refusal, service: string, operations: Table,
                      keys: seq<string>, ops: seq<Operation>, accessible: Accessibility)
    requires OneEntryPerKey(operations)
    requires IsEnumeration(operations, keys, ops)
    requires ApplyEffect(store, refuse, service, ops, accessible).outcome.Pass?
    ensures var after := ApplyEffect(store, refuse, service, ops, accessible).store;
      forall ik :: ik in operations && refuse(CopyCall, IdOf(service, operations[ik].key)).None? ==>
        (operations[ik].kind == Set ==>
           StoredData(after, refuse, service, operations[ik].key) == operations[ik].value) &&
        (operations[ik].kind == Remove ==>
           StoredData(after, refuse, service, operations[ik].key) == None)
  {
    EnumerationDistinct(operations, keys, ops);
    forall ik | ik in operations && refuse(CopyCall, IdOf(service, operations[ik].key)).None?
      ensures var after := ApplyEffect(store, refuse, service, ops, accessible).store;
        (operations[ik].kind == Set ==>
           StoredData(after, refuse, service, operations[ik].key) == operations[ik].value) &&
        (operations[ik].kind == Remove ==>
           StoredData(after, refuse, service, operations[ik].key) == None)
    {
      var i :| 0 <= i < |keys| && keys[i] == ik;
      ApplyThenReadAt(store, refuse, service, ops, i, accessible);
    }
  }

  /** Lifts the manager's outcome into what `apply()` throws. */
  function FromManager(outcome: Outcome<ManagerError>): (r: Outcome<ApplyError>)
    ensures r.Pass? <==> outcome.Pass?
    ensures r.Fail? ==> r.error == ManagerFailure(outcome.error)
  {
    match outcome
    case Pass => Pass
    case Fail(e) => Fail(ManagerFailure(e))
  }

  /** `SCKeychainOperationBuilder`: the manager, the options record and the pending table. */
  class OperationBuilder {
    const manager: KeychainManager
    const options: BuilderOptions
    var operations: Table

    /** The invariant every builder reached through the public API keeps. */
    ghost predicate Valid()
      reads this
    {
      WellKeyed(operations) && WritesOnly(operations)
    }

    /** `init(_:securely:)`: fresh default options with `onlyInForeground` set to `securely`. */
    constructor (manager: KeychainManager, securely: bool)
      ensures this.manager == manager && fresh(options)
      ensures options.onlyInForeground == securely && !options.icloudSync
      ensures operations == map[]
      ensures Valid()
    {
      this.manager := manager;
      options := new BuilderOptions();
      operations := map[];
      new;
      options.onlyInForeground := securely;
    }

    /**
     * `addingSetOperation(_:forKey:)`: encodes the value and records a set under its
     * internal key; when encoding throws, the error propagates and the table is unchanged.
     */
    method AddingSetOperation(value: ValueConverter.AnyValue, key: string)
      returns (r: Outcome<ValueConverter.ConverterError>)
      requires Valid()
      modifies this
      ensures Valid()
      ensures r.Fail? <==> ValueConverter.DataWith(value).Failure?
      ensures r.Fail? ==> r.error == ValueConverter.DataWith(value).error && operations == old(operations)
      ensures r.Pass? ==>
        operations == Insert(old(operations), Operation(Set, Some(ValueConverter.DataWith(value).value), key))
    {
      var data := ValueConverter.DataWith(value);
      if data.Failure? {
        return Fail(data.error);
      }
      var operation := Operation(Set, Some(data.value), key);
      InsertKeepsInvariant(operations, operation);
      operations := operations[operation.InternalKey() := operation];
      return Pass;
    }

    /** `set(_: String, forKey:)`: records a set of the string's UTF-8 bytes; it never throws. */
    method SetString(value: string, key: string) returns (r: Outcome<ValueConverter.ConverterError>)
      requires Valid()
      modifies this
      ensures Valid() && r == Pass
      ensures operations == Insert(old(operations), Operation(Set, Some(Utf8.Encode(value)), key))
    {
      r := AddingSetOperation(ValueConverter.StringValue(value), key);
    }

    /** `set(_: Bool, forKey:)`: records a set of the bytes of `Int` 1 or 0; it never throws. */
    method SetBool(value: bool, key: string) returns (r: Outcome<ValueConverter.ConverterError>)
      requires Valid()
      modifies this
      ensures Valid() && r == Pass
      ensures operations == Insert(old(operations), Operation(Set, Some(ValueConverter.IntBytes(if value then 1 else 0)), key))
    {
      r := AddingSetOperation(ValueConverter.BoolValue(value), key);
    }

    /** `set(_: Int, forKey:)`: records a set of the integer's bytes; it never throws. */
    method SetInteger(value: ValueConverter.Int64, key: string) returns (r: Outcome<ValueConverter.ConverterError>)
      requires Valid()
      modifies this
      ensures Valid() && r == Pass
      ensures operations == Insert(old(operations), Operation(Set, Some(ValueConverter.IntBytes(value)), key))
    {
      r := AddingSetOperation(ValueConverter.IntValue(value), key);
    }

    /** `removeObject(forKey:)`: records a remove of the key under its internal key. */
    method RemoveObject(key: string)
      requires Valid()
      modifies this
      ensures Valid()
      ensures operations == Insert(old(operations), Operation(Remove, None, key))
    {
      var operation := Operation(Remove, None, key);
      InsertKeepsInvariant(operations, operation);
      operations := operations[operation.InternalKey() := operation];
    }

    /**
     * `apply()`: an inconsistent table throws before the manager is called; otherwise
     * every pending operation goes to the manager exactly once, in the order `order` the
     * dictionary yields, with the builder's options. A valid builder never throws
     * `inconsistentOperations`.
     */
    method Apply() returns (r: Outcome<ApplyError>, order: seq<Operation>, ghost keys: seq<string>)
      modifies manager.keychain
      ensures Valid() ==> r != Fail(BuilderFailure(InconsistentOperations))
      ensures HasInconsistentOperations(operations) ==>
        r == Fail(BuilderFailure(InconsistentOperations)) &&
        manager.keychain.items == old(manager.keychain.items)
      ensures !HasInconsistentOperations(operations) ==>
        IsEnumeration(operations, keys, order) &&
        var e := ApplyEffect(old(manager.keychain.items), manager.keychain.refuse, manager.serviceName, order,
                             AccessibilityFor(options.onlyInForeground, options.icloudSync));
        r == FromManager(e.outcome) && manager.keychain.items == e.store
    {
      if Valid() {
        WritesOnlyConsistent(operations);
      }
      if HasInconsistentOperations(operations) {
        return Fail(BuilderFailure(InconsistentOperations)), [], [];
      }
      order, keys := Values(operations);
      var outcome := manager.Apply(order, options);
      r := FromManager(outcome);
    }
  }

  /** `securely()`: a builder on the manager whose items are readable only while unlocked. */
  method Securely(manager: KeychainManager) returns (builder: OperationBuilder)
    ensures fresh(builder) && fresh(builder.options)
    ensures builder.manager == manager && builder.operations == map[] && builder.Valid()
    ensures builder.options.onlyInForeground && !builder.options.icloudSync
  {
    builder := new OperationBuilder(manager, true);
  }

  /** A table with a single entry has a single enumeration. */
  lemma {:induction false} SingleEnumeration(op: Operation, keys: seq<string>, ops: seq<Operation>)
    requires IsEnumeration(Insert(map[], op), keys, ops)
    ensures ops == [op]
  {
    var ik := op.InternalKey();
    assert Insert(map[], op).Keys == {ik};
    assert keys[0] == ik;
  }

  /**
   * The example "can get items": a secure builder that sets a string and applies, then
   * `string(forKey:)`. When the apply succeeds and the read is not refused, the read
   * returns the string.
   */
  method SetApplyThenRead(manager: KeychainManager, value: string, key: string)
    returns (applied: Outcome<ApplyError>, read: Option<string>)
    modifies manager.keychain
    ensures applied.Pass? && manager.keychain.refuse(CopyCall, IdOf(manager.serviceName, key)).None? ==>
      read == Some(value)
  {
    var builder := Securely(manager);
    var _ := builder.SetString(value, key);
    var order;
    ghost var keys;
    applied, order, keys := builder.Apply();
    var op := Operation(Set, Some(Utf8.Encode(value)), key);
    if applied.Pass? {
      SingleEnumeration(op, keys, order);
      assert order[1..] == [];
    }
    read := manager.StringForKey(key);
    Utf8.DecodeEncode(value);
  }

  /**
   * The example "can remove them", for one key: a secure builder that removes the key
   * and applies. When the apply succeeds, every typed getter returns nil.
   */
  method RemoveApplyThenRead(manager: KeychainManager, key: string)
    returns (applied: Outcome<ApplyError>, text: Option<string>, flag: Option<bool>,
             number: Option<ValueConverter.Int64>)
    modifies manager.keychain
    ensures applied.Pass? ==> text.None? && flag.None? && number.None?
  {
    var builder := Securely(manager);
    builder.RemoveObject(key);
    var order;
    ghost var keys;
    applied, order, keys := builder.Apply();
    var op := Operation(Remove, None, key);
    if applied.Pass? {
      SingleEnumeration(op, keys, order);
      assert order[1..] == [];
    }
    text := manager.StringForKey(key);
    flag := manager.BoolForKey(key);
    number := manager.IntegerForKey(key);
  }
}

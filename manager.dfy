/**
 * The store facade, `SCKeychainManager`: it translates pending operations into calls
 * on the keychain and decodes what the keychain returns. The pure functions first say
 * what each operation does to the keychain's contents; the class's methods are proved
 * to do exactly that.
 */
module Manager {
  import opened Wrappers
  import opened Primitives
  import opened OperationTypes
  import opened Operations
  import opened Keychain
  import opened Options
  import Utf8
  import ValueConverter

  /** `SCKeychainManagerError`, with the parts of each message that carry information. */
  datatype ManagerError =
    | InvalidKey(key: string)
    | InvalidValueForKey(key: string)
    | ErrorSettingKey(status: Status)
    | ErrorUpdatingKey(key: string, status: Status)
    | ErrorRemovingKey(key: string, status: Status)

  /** What a call throws (or not) together with the keychain's contents after it. */
  datatype Effect = Effect(outcome: Outcome<ManagerError>, store: Store)

  /** The item a key names: the service, and the key's UTF-8 bytes as account. */
  function IdOf(service: string, key: string): (id: ItemId) {
    ItemId(service, Utf8.Encode(key))
  }

  /** Distinct keys name distinct items. */
  lemma IdOfInjective(service: string, a: string, b: string)
    ensures IdOf(service, a) == IdOf(service, b) <==> a == b
  {
    Utf8.EncodeInjective(a, b);
  }

  /**
   * The accessibility `createTypedQuery` attaches for the two options: readable only
   * while unlocked exactly when `onlyInForeground`, carried to new devices exactly when
   * `icloudSync`.
   */
  function AccessibilityFor(onlyInForeground: bool, icloudSync: bool): (a: Accessibility)
    ensures OnlyWhenUnlocked(a) == onlyInForeground
    ensures MigratesToNewDevice(a) == icloudSync
  {
    if onlyInForeground then
      if icloudSync then WhenUnlocked else WhenUnlockedThisDeviceOnly
    else
      if icloudSync then AfterFirstUnlock else AfterFirstUnlockThisDeviceOnly
  }

  /** The four option pairs select four distinct constants. */
  lemma AccessibilityForInjective(f1: bool, s1: bool, f2: bool, s2: bool)
    ensures AccessibilityFor(f1, s1) == AccessibilityFor(f2, s2) <==> f1 == f2 && s1 == s2
  {
  }

  /**
   * `set(_:forKey:with:)`: an add, and on a duplicate an update of the data.
   * On success the item holds the value and nothing else changed; a refused add throws
   * `errorSettingKey`, a refused update after a duplicate throws `errorUpdatingKey`,
   * and both leave the keychain as it was.
   */
  function SetEffect(store: Store, refuse: Refusal, service: string, key: string, value: Bytes,
                     accessible: Accessibility): (e: Effect)
    ensures forall x :: x != IdOf(service, key) ==> Agree(e.store, store, x)
    ensures e.outcome.Fail? ==> e.store == store
    ensures e.outcome.Pass? <==>
      refuse(AddCall, IdOf(service, key)).None? &&
      (IdOf(service, key) in store ==> refuse(UpdateCall, IdOf(service, key)).None?)
    ensures e.outcome.Fail? && e.outcome.error.ErrorSettingKey? <==> refuse(AddCall, IdOf(service, key)).Some?
    ensures e.outcome.Fail? && e.outcome.error.ErrorUpdatingKey? ==>
      IdOf(service, key) in store && e.outcome.error.key == key
    ensures e.outcome.Fail? ==> e.outcome.error.ErrorSettingKey? || e.outcome.error.ErrorUpdatingKey?
    ensures e.outcome.Pass? && IdOf(service, key) !in store ==>
      e.store == store[IdOf(service, key) := Item(value, Some(accessible))]
    ensures e.outcome.Pass? && IdOf(service, key) in store ==>
      e.store == store[IdOf(service, key) := store[IdOf(service, key)].(data := value)]
  {
    var id := IdOf(service, key);
    var add := AddEffect(store, refuse, id, Item(value, Some(accessible)));
    if add.status != SecSuccess && add.status != SecDuplicateItem then
      Effect(Fail(ErrorSettingKey(add.status)), store)
    else if add.status == SecDuplicateItem then
      var update := UpdateEffect(store, refuse, id, value);
      if update.status != SecSuccess then Effect(Fail(ErrorUpdatingKey(key, update.status)), store)
      else Effect(Pass, update.store)
    else
      Effect(Pass, add.store)
  }

  /**
   * `removeValue(forKey:)`: succeeds exactly when the item exists and the delete is not
   * refused, and then only that item is gone. Every other status throws
   * `errorRemovingKey`, so removing a missing key is an error.
   */
  function RemoveEffect(store: Store, refuse: Refusal, service: string, key: string): (e: Effect)
    ensures forall x :: x != IdOf(service, key) ==> Agree(e.store, store, x)
    ensures e.outcome.Pass? <==> IdOf(service, key) in store && refuse(DeleteCall, IdOf(service, key)).None?
    ensures e.outcome.Pass? ==> e.store == store - {IdOf(service, key)}
    ensures e.outcome.Fail? ==>
      e.store == store && e.outcome.error.ErrorRemovingKey? && e.outcome.error.key == key
    ensures IdOf(service, key) !in store && refuse(DeleteCall, IdOf(service, key)).None? ==>
      e.outcome == Fail(ErrorRemovingKey(key, SecItemNotFound))
  {
    var delete := DeleteEffect(store, refuse, IdOf(service, key));
    if delete.status != SecSuccess then Effect(Fail(ErrorRemovingKey(key, delete.status)), store)
    else Effect(Pass, delete.store)
  }

  /**
   * One turn of the loop in `apply(operations:with:)`: a set without a value throws
   * `invalidValueForKey`, a get does nothing, and no operation touches another key's item.
   */
  function StepEffect(store: Store, refuse: Refusal, service: string, op: Operation,
                      accessible: Accessibility): (e: Effect)
    ensures forall x :: x != IdOf(service, op.key) ==> Agree(e.store, store, x)
    ensures e.outcome.Fail? ==> e.store == store
    ensures op.kind == Get ==> e == Effect(Pass, store)
    ensures op.kind == Set && op.value.None? ==> e == Effect(Fail(InvalidValueForKey(op.key)), store)
  {
    match op.kind
    case Set =>
      (match op.value
       case None => Effect(Fail(InvalidValueForKey(op.key)), store)
       case Some(value) => SetEffect(store, refuse, service, op.key, value, accessible))
    case Remove => RemoveEffect(store, refuse, service, op.key)
    case Get => Effect(Pass, store)
  }

  /**
   * `apply(operations:with:)`: the operations one after another, stopping at the first
   * that throws; what the earlier ones did stays. A batch of gets changes nothing.
   */
  function ApplyEffect(store: Store, refuse: Refusal, service: string, ops: seq<Operation>,
                       accessible: Accessibility): (e: Effect)
    ensures (forall i :: 0 <= i < |ops| ==> ops[i].kind == Get) ==> e == Effect(Pass, store)
    decreases |ops|
  {
    if ops == [] then Effect(Pass, store)
    else
      var first := StepEffect(store, refuse, service, ops[0], accessible);
      if first.outcome.Fail? then first
      else ApplyEffect(first.store, refuse, service, ops[1..], accessible)
  }

  /** What `data(forKey:)` returns: the item's data when the copy succeeds, otherwise nil. */
  function StoredData(store: Store, refuse: Refusal, service: string, key: string): (r: Option<Bytes>)
    ensures r.Some? <==> IdOf(service, key) in store && refuse(CopyCall, IdOf(service, key)).None?
    ensures r.Some? ==> r.value == store[IdOf(service, key)].data
  {
    var id := IdOf(service, key);
    if CopyStatus(store, refuse, id) == SecSuccess then Some(store[id].data) else None
  }

  /** What `string(forKey:)` returns. */
  function StoredString(store: Store, refuse: Refusal, service: string, key: string): (r: Option<string>) {
    match StoredData(store, refuse, service, key)
    case None => None
    case Some(data) => Utf8.Decode(data)
  }

  /** What `integer(forKey:)` returns. */
  function StoredInteger(store: Store, refuse: Refusal, service: string, key: string): (r: Option<ValueConverter.Int64>) {
    match StoredData(store, refuse, service, key)
    case None => None
    case Some(data) => ValueConverter.IntegerFrom(data)
  }

  /** What `bool(forKey:)` returns. */
  function StoredBool(store: Store, refuse: Refusal, service: string, key: string): (r: Option<bool>) {
    match StoredData(store, refuse, service, key)
    case None => None
    case Some(data) => ValueConverter.BoolFrom(data)
  }

  /** Applying `a + b` is applying `a` and then, unless `a` threw, applying `b` to the result. */
  lemma {:induction false} ApplyEffectAppend(store: Store, refuse: Refusal, service: string,
                                             a: seq<Operation>, b: seq<Operation>, accessible: Accessibility)
    ensures ApplyEffect(store, refuse, service, a + b, accessible) ==
      var ea := ApplyEffect(store, refuse, service, a, accessible);
      if ea.outcome.Fail? then ea else ApplyEffect(ea.store, refuse, service, b, accessible)
    decreases |a|
  {
    if a == [] {
      assert a + b == b;
    } else {
      assert (a + b)[0] == a[0] && (a + b)[1..] == a[1..] + b;
      var first := StepEffect(store, refuse, service, a[0], accessible);
      if first.outcome.Pass? {
        ApplyEffectAppend(first.store, refuse, service, a[1..], b, accessible);
      }
    }
  }

  /** Applying one more operation after a prefix that did not throw is one more step. */
  lemma ApplyEffectSnoc(store: Store, refuse: Refusal, service: string, ops: seq<Operation>, i: nat,
                        accessible: Accessibility)
    requires i < |ops|
    requires ApplyEffect(store, refuse, service, ops[..i], accessible).outcome.Pass?
    ensures ApplyEffect(store, refuse, service, ops[..i + 1], accessible) ==
      StepEffect(ApplyEffect(store, refuse, service, ops[..i], accessible).store, refuse, service, ops[i], accessible)
  {
    assert ops[..i + 1] == ops[..i] + [ops[i]];
    ApplyEffectAppend(store, refuse, service, ops[..i], [ops[i]], accessible);
  }

  /**
   * No rollback: when a batch throws, some operation i threw, every operation before it
   * succeeded, and the keychain is left as those earlier operations made it.
   */
  lemma {:induction false} ApplyEffectFailure(store: Store, refuse: Refusal, service: string,
                                              ops: seq<Operation>, accessible: Accessibility) returns (i: nat)
    requires ApplyEffect(store, refuse, service, ops, accessible).outcome.Fail?
    ensures i < |ops|
    ensures ApplyEffect(store, refuse, service, ops[..i], accessible).outcome.Pass?
    ensures ApplyEffect(store, refuse, service, ops, accessible) ==
      StepEffect(ApplyEffect(store, refuse, service, ops[..i], accessible).store, refuse, service, ops[i], accessible)
    ensures ApplyEffect(store, refuse, service, ops, accessible).store ==
      ApplyEffect(store, refuse, service, ops[..i], accessible).store
    decreases |ops|
  {
    var first := StepEffect(store, refuse, service, ops[0], accessible);
    if first.outcome.Fail? {
      i := 0;
      assert ops[..0] == [];
    } else {
      var j := ApplyEffectFailure(first.store, refuse, service, ops[1..], accessible);
      i := j + 1;
      assert ops[..i][1..] == ops[1..][..j];
      assert ops[..i][0] == ops[0];
    }
  }

  /** The item of a key no operation in the batch names ends as it began. */
  lemma {:induction false} ApplyEffectUntouched(store: Store, refuse: Refusal, service: string,
                                                ops: seq<Operation>, accessible: Accessibility, id: ItemId)
    requires forall i :: 0 <= i < |ops| ==> IdOf(service, ops[i].key) != id
    ensures Agree(ApplyEffect(store, refuse, service, ops, accessible).store, store, id)
    decreases |ops|
  {
    if ops != [] {
      var first := StepEffect(store, refuse, service, ops[0], accessible);
      if first.outcome.Pass? {
        ApplyEffectUntouched(first.store, refuse, service, ops[1..], accessible, id);
      }
    }
  }

  /** A step's outcome and its effect on its own item depend only on that item. */
  lemma StepEffectLocal(m1: Store, m2: Store, refuse: Refusal, service: string, op: Operation,
                        accessible: Accessibility)
    requires Agree(m1, m2, IdOf(service, op.key))
    ensures StepEffect(m1, refuse, service, op, accessible).outcome ==
            StepEffect(m2, refuse, service, op, accessible).outcome
    ensures Agree(StepEffect(m1, refuse, service, op, accessible).store,
                  StepEffect(m2, refuse, service, op, accessible).store, IdOf(service, op.key))
  {
  }

  /** The operations of a batch name pairwise distinct keys. */
  predicate DistinctKeys(ops: seq<Operation>) {
    forall i, j :: 0 <= i < j < |ops| ==> ops[i].key != ops[j].key
  }

  /** Each operation of the batch, taken alone, would succeed on `store`. */
  predicate AllStepsPass(store: Store, refuse: Refusal, service: string, ops: seq<Operation>,
                         accessible: Accessibility) {
    forall i :: 0 <= i < |ops| ==> StepEffect(store, refuse, service, ops[i], accessible).outcome.Pass?
  }

  /** The keys of a batch on distinct keys name distinct items; in particular the first's is named by no other. */
  lemma DistinctKeysRest(service: string, ops: seq<Operation>)
    requires ops != [] && DistinctKeys(ops)
    ensures DistinctKeys(ops[1..])
    ensures forall i :: 0 <= i < |ops[1..]| ==> IdOf(service, ops[1..][i].key) != IdOf(service, ops[0].key)
  {
    forall i | 0 <= i < |ops[1..]|
      ensures IdOf(service, ops[1..][i].key) != IdOf(service, ops[0].key)
    {
      IdOfInjective(service, ops[1..][i].key, ops[0].key);
    }
  }

  /**
   * Once the first operation of a batch on distinct keys has run, the others behave as
   * they would have on the initial keychain.
   */
  lemma RestUnaffected(store: Store, refuse: Refusal, service: string, ops: seq<Operation>,
                       accessible: Accessibility)
    requires ops != [] && DistinctKeys(ops)
    ensures var after := StepEffect(store, refuse, service, ops[0], accessible).store;
      forall i :: 1 <= i < |ops| ==>
        StepEffect(after, refuse, service, ops[i], accessible).outcome ==
        StepEffect(store, refuse, service, ops[i], accessible).outcome &&
        Agree(StepEffect(after, refuse, service, ops[i], accessible).store,
              StepEffect(store, refuse, service, ops[i], accessible).store, IdOf(service, ops[i].key))
  {
    var after := StepEffect(store, refuse, service, ops[0], accessible).store;
    DistinctKeysRest(service, ops);
    forall i | 1 <= i < |ops|
      ensures StepEffect(after, refuse, service, ops[i], accessible).outcome ==
              StepEffect(store, refuse, service, ops[i], accessible).outcome
      ensures Agree(StepEffect(after, refuse, service, ops[i], accessible).store,
                    StepEffect(store, refuse, service, ops[i], accessible).store, IdOf(service, ops[i].key))
    {
      assert ops[1..][i - 1] == ops[i];
      StepEffectLocal(after, store, refuse, service, ops[i], accessible);
    }
  }

  /**
   * For a batch on distinct keys the order does not matter for success: the batch
   * succeeds exactly when each operation would succeed alone on the initial keychain.
   */
  lemma {:induction false} ApplyEffectDistinctPass(store: Store, refuse: Refusal, service: string,
                                                   ops: seq<Operation>, accessible: Accessibility)
    requires DistinctKeys(ops)
    ensures ApplyEffect(store, refuse, service, ops, accessible).outcome.Pass? <==>
      AllStepsPass(store, refuse, service, ops, accessible)
    decreases |ops|
  {
    if ops != [] {
      var first := StepEffect(store, refuse, service, ops[0], accessible);
      var rest := ops[1..];
      DistinctKeysRest(service, ops);
      RestUnaffected(store, refuse, service, ops, accessible);
      ApplyEffectDistinctPass(first.store, refuse, service, rest, accessible);
      assert forall i :: 0 <= i < |rest| ==> rest[i] == ops[i + 1];
      assert AllStepsPass(store, refuse, service, ops, accessible) <==>
        first.outcome.Pass? && AllStepsPass(store, refuse, service, rest, accessible);
    }
  }

  /**
   * For a successful batch on distinct keys, each operation's item ends as that
   * operation alone would leave it.
   */
  lemma {:induction false} ApplyEffectDistinct(store: Store, refuse: Refusal, service: string,
                                               ops: seq<Operation>, accessible: Accessibility)
    requires DistinctKeys(ops)
    requires ApplyEffect(store, refuse, service, ops, accessible).outcome.Pass?
    ensures forall i :: 0 <= i < |ops| ==>
      Agree(ApplyEffect(store, refuse, service, ops, accessible).store,
            StepEffect(store, refuse, service, ops[i], accessible).store, IdOf(service, ops[i].key))
    decreases |ops|
  {
    if ops != [] {
      var first := StepEffect(store, refuse, service, ops[0], accessible);
      var rest := ops[1..];
      var final := ApplyEffect(store, refuse, service, ops, accessible).store;
      DistinctKeysRest(service, ops);
      RestUnaffected(store, refuse, service, ops, accessible);
      ApplyEffectDistinct(first.store, refuse, service, rest, accessible);
      ApplyEffectUntouched(first.store, refuse, service, rest, accessible, IdOf(service, ops[0].key));
      forall i | 0 <= i < |ops|
        ensures Agree(final, StepEffect(store, refuse, service, ops[i], accessible).store, IdOf(service, ops[i].key))
      {
        if i > 0 {
          assert rest[i - 1] == ops[i];
        }
      }
    }
  }

  /** Whether every step succeeds alone depends only on which operations there are. */
  lemma AllStepsPassSameElements(store: Store, refuse: Refusal, service: string,
                                 ops1: seq<Operation>, ops2: seq<Operation>, accessible: Accessibility)
    requires forall op :: op in ops1 <==> op in ops2
    ensures AllStepsPass(store, refuse, service, ops1, accessible) <==>
            AllStepsPass(store, refuse, service, ops2, accessible)
  {
    if AllStepsPass(store, refuse, service, ops1, accessible) {
      forall j | 0 <= j < |ops2|
        ensures StepEffect(store, refuse, service, ops2[j], accessible).outcome.Pass?
      {
        assert ops2[j] in ops1;
      }
    }
    if AllStepsPass(store, refuse, service, ops2, accessible) {
      forall i | 0 <= i < |ops1|
        ensures StepEffect(store, refuse, service, ops1[i], accessible).outcome.Pass?
      {
        assert ops1[i] in ops2;
      }
    }
  }

  /** Two successful orders of the same operations on distinct keys agree at every item. */
  lemma OrdersAgreeAt(store: Store, refuse: Refusal, service: string,
                      ops1: seq<Operation>, ops2: seq<Operation>, accessible: Accessibility, x: ItemId)
    requires DistinctKeys(ops1) && DistinctKeys(ops2)
    requires forall op :: op in ops1 <==> op in ops2
    requires ApplyEffect(store, refuse, service, ops1, accessible).outcome.Pass?
    requires ApplyEffect(store, refuse, service, ops2, accessible).outcome.Pass?
    ensures Agree(ApplyEffect(store, refuse, service, ops1, accessible).store,
                  ApplyEffect(store, refuse, service, ops2, accessible).store, x)
  {
    ApplyEffectDistinct(store, refuse, service, ops1, accessible);
    ApplyEffectDistinct(store, refuse, service, ops2, accessible);
    if i :| 0 <= i < |ops1| && IdOf(service, ops1[i].key) == x {
      assert ops1[i] in ops2;
      var j :| 0 <= j < |ops2| && ops2[j] == ops1[i];
    } else {
      forall j | 0 <= j < |ops2|
        ensures IdOf(service, ops2[j].key) != x
      {
        assert ops2[j] in ops1;
      }
      ApplyEffectUntouched(store, refuse, service, ops1, accessible, x);
      ApplyEffectUntouched(store, refuse, service, ops2, accessible, x);
    }
  }

  /**
   * Two orders of the same operations on distinct keys agree: one succeeds exactly when
   * the other does, and then they leave the same keychain.
   */
  lemma OrderIndependent(store: Store, refuse: Refusal, service: string,
                         ops1: seq<Operation>, ops2: seq<Operation>, accessible: Accessibility)
    requires DistinctKeys(ops1) && DistinctKeys(ops2)
    requires forall op :: op in ops1 <==> op in ops2
    ensures ApplyEffect(store, refuse, service, ops1, accessible).outcome.Pass? <==>
            ApplyEffect(store, refuse, service, ops2, accessible).outcome.Pass?
    ensures ApplyEffect(store, refuse, service, ops1, accessible).outcome.Pass? ==>
            ApplyEffect(store, refuse, service, ops1, accessible).store ==
            ApplyEffect(store, refuse, service, ops2, accessible).store
  {
    var e1 := ApplyEffect(store, refuse, service, ops1, accessible);
    var e2 := ApplyEffect(store, refuse, service, ops2, accessible);
    ApplyEffectDistinctPass(store, refuse, service, ops1, accessible);
    ApplyEffectDistinctPass(store, refuse, service, ops2, accessible);
    AllStepsPassSameElements(store, refuse, service, ops1, ops2, accessible);
    if e1.outcome.Pass? {
      forall x
        ensures (x in e1.store <==> x in e2.store) && (x in e1.store ==> e1.store[x] == e2.store[x])
      {
        OrdersAgreeAt(store, refuse, service, ops1, ops2, accessible, x);
      }
      assert e1.store.Keys == e2.store.Keys;
    }
  }

  /**
   * A set and a remove of the same key do not commute: on an empty keychain, set-then-
   * remove succeeds, while remove-then-set throws `errorRemovingKey`. The outcome of a
   * batch holding both therefore depends on the dictionary's iteration order.
   */
  lemma SameKeyOrderMatters(service: string, key: string, value: Bytes, accessible: Accessibility)
    ensures var refuse: Refusal := (c, id) => None;
      var setOp := Operation(Set, Some(value), key);
      var removeOp := Operation(Remove, None, key);
      ApplyEffect(map[], refuse, service, [setOp, removeOp], accessible) == Effect(Pass, map[]) &&
      ApplyEffect(map[], refuse, service, [removeOp, setOp], accessible) ==
        Effect(Fail(ErrorRemovingKey(key, SecItemNotFound)), map[])
  {
    var refuse: Refusal := (c, id) => None;
    var setOp := Operation(Set, Some(value), key);
    var removeOp := Operation(Remove, None, key);
    var id := IdOf(service, key);
    var afterSet := StepEffect(map[], refuse, service, setOp, accessible);
    assert afterSet.store == map[id := Item(value, Some(accessible))];
    assert afterSet.store - {id} == map[];
    assert [setOp, removeOp][1..] == [removeOp];
    assert [removeOp, setOp][1..] == [setOp];
  }

  /**
   * Set-then-read: once a set of an encoded value succeeds, the typed getter for that
   * value's type returns the value (unless the read is refused).
   */
  lemma SetThenGet(store: Store, refuse: Refusal, service: string, key: string,
                   value: ValueConverter.AnyValue, accessible: Accessibility)
    requires ValueConverter.DataWith(value).Success?
    requires SetEffect(store, refuse, service, key, ValueConverter.DataWith(value).value, accessible).outcome.Pass?
    requires refuse(CopyCall, IdOf(service, key)).None?
    ensures var after := SetEffect(store, refuse, service, key, ValueConverter.DataWith(value).value, accessible).store;
      match value
      case StringValue(s) => StoredString(after, refuse, service, key) == Some(s)
      case BoolValue(b) => StoredBool(after, refuse, service, key) == Some(b)
      case IntValue(n) => StoredInteger(after, refuse, service, key) == Some(n)
      case OtherValue(_) => false
  {
  }

  /** After a successful remove every typed getter returns nil for that key. */
  lemma RemoveThenGet(store: Store, refuse: Refusal, service: string, key: string)
    requires RemoveEffect(store, refuse, service, key).outcome.Pass?
    ensures var after := RemoveEffect(store, refuse, service, key).store;
      StoredString(after, refuse, service, key) == None &&
      StoredBool(after, refuse, service, key) == None &&
      StoredInteger(after, refuse, service, key) == None
  {
  }

  /**
   * `SCKeychainManager`: a service name, an optional access group, and the keychain it
   * stores into.
   */
  class KeychainManager {
    const serviceName: string
    const accessGroup: Option<string>
    const keychain: Keychain

    /** `init(serviceName:accessGroup:)`. */
    constructor (serviceName: string, accessGroup: Option<string>, keychain: Keychain)
      ensures this.serviceName == serviceName && this.accessGroup == accessGroup && this.keychain == keychain
    {
      this.serviceName := serviceName;
      this.accessGroup := accessGroup;
      this.keychain := keychain;
    }

    /**
     * `createTypedQuery(type:with:)`: class and service, the access group when there is
     * one, and, only when options are given, the accessibility they select.
     */
    method CreateTypedQuery(secClass: SecClass, options: BuilderOptions?) returns (query: Query)
      ensures query.Keys ==
        {Class, AttrService}
        + (if accessGroup.Some? then {AttrAccessGroup} else {})
        + (if options != null then {AttrAccessible} else {})
      ensures query[Class] == ClassValue(secClass) && query[AttrService] == Text(serviceName)
      ensures accessGroup.Some? ==> query[AttrAccessGroup] == Text(accessGroup.value)
      ensures options != null ==>
        query[AttrAccessible] == AccessibleValue(AccessibilityFor(options.onlyInForeground, options.icloudSync))
    {
      query := map[Class := ClassValue(secClass)];
      query := query[AttrService := Text(serviceName)];
      if accessGroup.Some? {
        query := query[AttrAccessGroup := Text(accessGroup.value)];
      }
      if options == null {
        return;
      }
      if options.onlyInForeground {
        if options.icloudSync {
          query := query[AttrAccessible := AccessibleValue(WhenUnlocked)];
        } else {
          query := query[AttrAccessible := AccessibleValue(WhenUnlockedThisDeviceOnly)];
        }
      } else {
        if options.icloudSync {
          query := query[AttrAccessible := AccessibleValue(AfterFirstUnlock)];
        } else {
          query := query[AttrAccessible := AccessibleValue(AfterFirstUnlockThisDeviceOnly)];
        }
      }
    }

    /** `set(_:forKey:with:)`. */
    method Set(value: Bytes, key: string, options: BuilderOptions) returns (r: Outcome<ManagerError>)
      modifies keychain
      ensures Effect(r, keychain.items) ==
        SetEffect(old(keychain.items), keychain.refuse, serviceName, key, value,
                  AccessibilityFor(options.onlyInForeground, options.icloudSync))
    {
      var query := CreateTypedQuery(GenericPassword, options);
      var dataKey := Utf8.Encode(key);
      query := query[AttrGeneric := Data(dataKey)];
      query := query[AttrAccount := Data(dataKey)];
      query := query[ValueData := Data(value)];
      assert Identity(query) == Some(IdOf(serviceName, key));
      var status := keychain.Add(query);
      if status != SecSuccess && status != SecDuplicateItem {
        return Fail(ErrorSettingKey(status));
      } else if status == SecDuplicateItem {
        status := keychain.Update(query, value);
        if status != SecSuccess {
          return Fail(ErrorUpdatingKey(key, status));
        }
      }
      return Pass;
    }

    /** `removeValue(forKey:)`. */
    method RemoveValue(key: string) returns (r: Outcome<ManagerError>)
      modifies keychain
      ensures Effect(r, keychain.items) == RemoveEffect(old(keychain.items), keychain.refuse, serviceName, key)
    {
      var query := CreateTypedQuery(GenericPassword, null);
      var dataKey := Utf8.Encode(key);
      query := query[AttrGeneric := Data(dataKey)];
      query := query[AttrAccount := Data(dataKey)];
      assert Identity(query) == Some(IdOf(serviceName, key));
      var status := keychain.Delete(query);
      if status != SecSuccess {
        return Fail(ErrorRemovingKey(key, status));
      }
      return Pass;
    }

    /** `apply(operations:with:)`, over the operations in the order given. */
    method Apply(operations: seq<Operation>, options: BuilderOptions) returns (r: Outcome<ManagerError>)
      modifies keychain
      ensures Effect(r, keychain.items) ==
        ApplyEffect(old(keychain.items), keychain.refuse, serviceName, operations,
                    AccessibilityFor(options.onlyInForeground, options.icloudSync))
    {
      ghost var initial := keychain.items;
      ghost var accessible := AccessibilityFor(options.onlyInForeground, options.icloudSync);
      var i := 0;
      while i < |operations|
        invariant 0 <= i <= |operations|
        invariant ApplyEffect(initial, keychain.refuse, serviceName, operations[..i], accessible) ==
                  Effect(Pass, keychain.items)
      {
        var operation := operations[i];
        ApplyEffectSnoc(initial, keychain.refuse, serviceName, operations, i, accessible);
        ApplyEffectAppend(initial, keychain.refuse, serviceName, operations[..i + 1], operations[i + 1..], accessible);
        assert operations[..i + 1] + operations[i + 1..] == operations;
        match operation.kind {
          case Set =>
            if operation.value.None? {
              return Fail(InvalidValueForKey(operation.key));
            }
            r := Set(operation.value.value, operation.key, options);
            if r.Fail? {
              return;
            }
          case Remove =>
            r := RemoveValue(operation.key);
            if r.Fail? {
              return;
            }
          case Get =>
        }
        i := i + 1;
      }
      assert operations[..i] == operations;
      r := Pass;
    }

    /** `data(forKey:)`: the item's data when the keychain returns it, otherwise nil. */
    method DataForKey(key: string) returns (r: Option<Bytes>)
      ensures r == StoredData(keychain.items, keychain.refuse, serviceName, key)
    {
      var query := CreateTypedQuery(GenericPassword, null);
      var dataKey := Utf8.Encode(key);
      query := query[AttrGeneric := Data(dataKey)];
      query := query[AttrAccount := Data(dataKey)];
      query := query[MatchLimit := MatchLimitOne];
      query := query[ReturnData := Flag(true)];
      assert Identity(query) == Some(IdOf(serviceName, key));
      var status, result := keychain.CopyMatching(query);
      r := if status == SecSuccess then result else None;
    }

    /** `string(forKey:)`: the stored bytes read as UTF-8; nil when absent or not UTF-8. */
    method StringForKey(key: string) returns (r: Option<string>)
      ensures r == StoredString(keychain.items, keychain.refuse, serviceName, key)
    {
      var stored := DataForKey(key);
      if stored.Some? {
        return Utf8.Decode(stored.value);
      }
      return None;
    }

    /** `integer(forKey:)`: the stored bytes read as an `Int`; nil when absent or too short. */
    method IntegerForKey(key: string) returns (r: Option<ValueConverter.Int64>)
      ensures r == StoredInteger(keychain.items, keychain.refuse, serviceName, key)
    {
      var stored := DataForKey(key);
      if stored.Some? {
        r := ValueConverter.DataTo(stored.value);
        return;
      }
      return None;
    }

    /** `bool(forKey:)`: the stored bytes read as a Bool; nil when absent or too short. */
    method BoolForKey(key: string) returns (r: Option<bool>)
      ensures r == StoredBool(keychain.items, keychain.refuse, serviceName, key)
    {
      var stored := DataForKey(key);
      if stored.Some? {
        return ValueConverter.BoolFrom(stored.value);
      }
      return None;
    }
  }
}

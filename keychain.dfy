/**
 * An abstract stand-in for the platform keychain (Security.framework's SecItemAdd,
 * SecItemUpdate, SecItemDelete and SecItemCopyMatching). Items are identified by
 * service and account. An unrefused call acts by presence: adding an existing item
 * reports a duplicate, and updating, deleting or reading a missing item reports
 * not-found. The environment may refuse any call on any item (a device locked for the
 * whole batch, a missing entitlement, ...). A refusal is a fixed function `refuse` of
 * the call and the item only: it does not change over time, with the order of calls or
 * with other items, so each call's outcome is a parameter of the model rather than
 * something it explains.
 */
module Keychain {
  import opened Wrappers
  import opened Primitives

  /** The `OSStatus` values the code distinguishes. */
  datatype Status =
    | SecSuccess              // errSecSuccess, noErr
    | SecDuplicateItem        // errSecDuplicateItem
    | SecItemNotFound         // errSecItemNotFound
    | SecParam                // errSecParam: the query lacks what the call needs
    | SecOther(code: int)     // any other failure, as refused by the environment

  /** The four `kSecAttrAccessible` constants the code chooses between. */
  datatype Accessibility =
    | WhenUnlocked
    | WhenUnlockedThisDeviceOnly
    | AfterFirstUnlock
    | AfterFirstUnlockThisDeviceOnly

  /** Readable only while the device is unlocked, i.e. by applications in the foreground. */
  predicate OnlyWhenUnlocked(a: Accessibility) {
    a == WhenUnlocked || a == WhenUnlockedThisDeviceOnly
  }

  /** Carried to a new device by encrypted backups (the "ThisDeviceOnly" constants never are). */
  predicate MigratesToNewDevice(a: Accessibility) {
    a == WhenUnlocked || a == AfterFirstUnlock
  }

  /** The `kSecClass` value the modelled calls use (the RSA key query is not modelled). */
  datatype SecClass = GenericPassword

  /** The keys of a query dictionary the code sets. */
  datatype QueryKey =
    | Class | AttrService | AttrAccessGroup | AttrAccessible
    | AttrGeneric | AttrAccount | ValueData | MatchLimit | ReturnData

  /** The values the code stores in a query dictionary. */
  datatype QueryValue =
    | ClassValue(secClass: SecClass)
    | Text(text: string)
    | Data(bytes: Bytes)
    | AccessibleValue(accessible: Accessibility)
    | MatchLimitOne
    | Flag(flag: bool)

  /** A query dictionary, `[CFString : Any]`. */
  type Query = map<QueryKey, QueryValue>

  /** The primary key of a generic-password item. */
  datatype ItemId = ItemId(service: string, account: Bytes)

  /** A stored item: its data and the accessibility it was added with. */
  datatype Item = Item(data: Bytes, accessible: Option<Accessibility>)

  /** The keychain's contents. */
  type Store = map<ItemId, Item>

  /** The four platform calls. */
  datatype Call = AddCall | UpdateCall | DeleteCall | CopyCall

  /** Which calls the environment refuses, and with what code. */
  type Refusal = (Call, ItemId) -> Option<int>

  /** The status a call reports together with the keychain's contents after it. */
  datatype Reply = Reply(status: Status, store: Store)

  /** `m1` and `m2` agree at `id`: both lack it, or both map it to the same item. */
  predicate Agree(m1: Store, m2: Store, id: ItemId) {
    (id in m1 <==> id in m2) && (id in m1 ==> m1[id] == m2[id])
  }

  /** The item a query names, when it names service and account. */
  function Identity(query: Query): (id: Option<ItemId>) {
    if AttrService in query && query[AttrService].Text? && AttrAccount in query && query[AttrAccount].Data?
    then Some(ItemId(query[AttrService].text, query[AttrAccount].bytes))
    else None
  }

  /** The item a query for SecItemAdd describes. */
  function NewItem(query: Query): (item: Option<Item>) {
    if ValueData in query && query[ValueData].Data? then
      var accessible :=
        if AttrAccessible in query && query[AttrAccessible].AccessibleValue?
        then Some(query[AttrAccessible].accessible) else None;
      Some(Item(query[ValueData].bytes, accessible))
    else None
  }

  /** SecItemAdd on an identified item. */
  function AddEffect(store: Store, refuse: Refusal, id: ItemId, item: Item): (reply: Reply) {
    match refuse(AddCall, id)
    case Some(code) => Reply(SecOther(code), store)
    case None =>
      if id in store then Reply(SecDuplicateItem, store)
      else Reply(SecSuccess, store[id := item])
  }

  /** SecItemUpdate of an identified item's data. */
  function UpdateEffect(store: Store, refuse: Refusal, id: ItemId, data: Bytes): (reply: Reply) {
    match refuse(UpdateCall, id)
    case Some(code) => Reply(SecOther(code), store)
    case None =>
      if id !in store then Reply(SecItemNotFound, store)
      else Reply(SecSuccess, store[id := store[id].(data := data)])
  }

  /** SecItemDelete of an identified item. */
  function DeleteEffect(store: Store, refuse: Refusal, id: ItemId): (reply: Reply) {
    match refuse(DeleteCall, id)
    case Some(code) => Reply(SecOther(code), store)
    case None =>
      if id !in store then Reply(SecItemNotFound, store)
      else Reply(SecSuccess, store - {id})
  }

  /** The status SecItemCopyMatching reports for an identified item. */
  function CopyStatus(store: Store, refuse: Refusal, id: ItemId): (status: Status) {
    match refuse(CopyCall, id)
    case Some(code) => SecOther(code)
    case None => if id in store then SecSuccess else SecItemNotFound
  }

  /** The platform keychain: its items and the calls its environment refuses. */
  class Keychain {
    var items: Store
    const refuse: Refusal

    constructor (refuse: Refusal, items: Store)
      ensures this.items == items && this.refuse == refuse
    {
      this.items := items;
      this.refuse := refuse;
    }

    /** SecItemAdd(query, nil). */
    method Add(query: Query) returns (status: Status)
      modifies this
      ensures Identity(query).None? || NewItem(query).None? ==> status == SecParam && items == old(items)
      ensures Identity(query).Some? && NewItem(query).Some? ==>
        Reply(status, items) == AddEffect(old(items), refuse, Identity(query).value, NewItem(query).value)
    {
      if Identity(query).None? || NewItem(query).None? {
        return SecParam;
      }
      var reply := AddEffect(items, refuse, Identity(query).value, NewItem(query).value);
      status, items := reply.status, reply.store;
    }

    /** SecItemUpdate(query, [kSecValueData: data]). */
    method Update(query: Query, data: Bytes) returns (status: Status)
      modifies this
      ensures Identity(query).None? ==> status == SecParam && items == old(items)
      ensures Identity(query).Some? ==>
        Reply(status, items) == UpdateEffect(old(items), refuse, Identity(query).value, data)
    {
      if Identity(query).None? {
        return SecParam;
      }
      var reply := UpdateEffect(items, refuse, Identity(query).value, data);
      status, items := reply.status, reply.store;
    }

    /** SecItemDelete(query). */
    method Delete(query: Query) returns (status: Status)
      modifies this
      ensures Identity(query).None? ==> status == SecParam && items == old(items)
      ensures Identity(query).Some? ==>
        Reply(status, items) == DeleteEffect(old(items), refuse, Identity(query).value)
    {
      if Identity(query).None? {
        return SecParam;
      }
      var reply := DeleteEffect(items, refuse, Identity(query).value);
      status, items := reply.status, reply.store;
    }

    /** SecItemCopyMatching(query, &result): the item's data is returned when the query asks for it. */
    method CopyMatching(query: Query) returns (status: Status, result: Option<Bytes>)
      ensures Identity(query).None? ==> status == SecParam && result == None
      ensures Identity(query).Some? ==> status == CopyStatus(items, refuse, Identity(query).value)
      ensures result.Some? <==>
        status == SecSuccess && ReturnData in query && query[ReturnData] == Flag(true)
      ensures result.Some? ==> result.value == items[Identity(query).value].data
    {
      if Identity(query).None? {
        return SecParam, None;
      }
      var id := Identity(query).value;
      status := CopyStatus(items, refuse, id);
      if status == SecSuccess && ReturnData in query && query[ReturnData] == Flag(true) {
        result := Some(items[id].data);
      } else {
        result := None;
      }
    }
  }
}

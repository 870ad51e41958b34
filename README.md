# SCKeychainManager in Dafny

This project models the in-memory logic of SCKeychainManager-iOS, a Swift library that keeps
strings, Bools and Ints in the iOS keychain, and proves properties of that model. Callers
queue operations on a builder and then apply them as a batch:

    manager.securely().set("eaceto", forKey: "username").apply()

The model follows the library's five core files:

- `operation_type.dfy` (module `OperationTypes`): the operation kinds and their one-character
  raw values.
- `operation.dfy` (module `Operations`): a pending operation and its internal key
  `"<raw value>-<key>"`. The key is proved injective and decodable.
- `utf8.dfy` (module `Utf8`) and `value_converter.dfy` (module `ValueConverter`): the value
  codec.
  - Strings become UTF-8 as defined in section 3 of RFC 3629. Decoding is strict: it rejects
    overlong forms, surrogates and values above U+10FFFF.
  - Bools become the bytes of the `Int` 1 or 0.
  - Ints become their eight bytes in memory. The model **assumes** the layout of 64-bit iOS:
    two's complement, least significant byte first. The Swift code just copies whatever
    layout the platform uses.
  - Reading an Int needs at least eight bytes and ignores any bytes after them.
- `builder_options.dfy` (module `Options`) and `builder.dfy` (module `Builder`): the
  operation builder.
  - It is a class whose `operations` field is a `map` from internal key to operation; the
    setters reassign it.
  - Its invariant is that every entry is stored under its own internal key, and that the
    table holds only sets (each with a value) and removes (each without).
  - `Apply` rejects a batch that mixes writes and reads, and otherwise hands every pending
    operation to the manager.
- `manager.dfy` (module `Manager`): the store facade `SCKeychainManager`.
  - Pure functions (`SetEffect`, `RemoveEffect`, `StepEffect`, `ApplyEffect`, `StoredData`)
    say what each call does to the keychain's contents.
  - The class's methods are proved to do exactly that.
  - Lemmas relate the functions: no rollback after a failure, and locality (an operation
    touches only its own item).
  - Order independence: a batch whose operations have distinct keys gives the same result in
    any order.
  - Set-then-read and remove-then-read hold.

Security.framework is replaced by `keychain.dfy` (module `Keychain`): a class holding a map
from item identity (service and account bytes) to item (data and accessibility).
- Unrefused calls act by presence. An add of an existing item reports a duplicate. An update,
  delete or copy of a missing item reports item-not-found.
- A fixed function `refuse` stands in for everything else the platform may answer. It can
  make any call on any item fail with an arbitrary status, which covers a device locked for
  the whole batch, a missing entitlement or an I/O error. It depends only on the call and
  the item, never on time, on the order of calls or on other items.
- A malformed query reports `errSecParam`.

Swift's dictionary does not specify the order of `operations.values`. `Builder.Values` picks
the keys one at a time with a nondeterministic choice and reports the order it chose. The
model only claims order-independent results for tables with one entry per key
(`Builder.EnumerationOrderIrrelevant`). A table holding both a set and a remove of the same
key does depend on the order (`Builder.SetAndRemoveOrderMatters`). On an empty keychain
set-then-remove succeeds, while remove-then-set throws `errorRemovingKey`.

Removing a key that is absent is an error. The check at
`SCKeychainManager/Classes/SCKeychainManager.swift:117` throws `errorRemovingKey` on every
status other than success. A commented-out `&& status != errSecItemNotFound` on that same
line shows that exempting item-not-found was once intended, but as written the exemption
is not there. The model follows the code as written (`Manager.RemoveEffect`,
`Manager.SameKeyOrderMatters`).

## Model

| member | source | states |
|---|---|---|
| OperationTypes.RawValue | SCKeychainManager/Classes/SCKeychainOperationType.swift:12-14 | every raw value is a single character other than `-` |
| OperationTypes.FromRawValue | SCKeychainManager/Classes/SCKeychainOperationType.swift:11 | a case it returns has the given raw value; when it returns none, no case has that raw value |
| OperationTypes.RawValues | SCKeychainManager/Classes/SCKeychainOperationType.swift:11-15 | the raw values are exactly "s", "r" and "g", and there are exactly three kinds |
| OperationTypes.RawValueInjective | SCKeychainManager/Classes/SCKeychainOperationType.swift:12-14 | two kinds have the same raw value only when they are the same kind |
| OperationTypes.FromRawValueInverse | SCKeychainManager/Classes/SCKeychainOperationType.swift:11-14 | constructing from a kind's raw value gives that kind back |
| Operations.Operation.InternalKey | SCKeychainManager/Classes/SCKeychainOperation.swift:22-26 | the internal key is two Unicode scalars longer than the key and is the raw value, `-`, then the key |
| Operations.ParseInternalKey | SCKeychainManager/Classes/SCKeychainOperation.swift:24 | any kind and key it recovers rebuild the same internal key |
| Operations.ParseInternalKeyInverse | SCKeychainManager/Classes/SCKeychainOperation.swift:24 | parsing an operation's internal key recovers its kind and key |
| Operations.InternalKeyInjective | SCKeychainManager/Classes/SCKeychainOperation.swift:22-26 | two operations share an internal key if and only if they have the same kind and key |
| Operations.DifferentKindsNeverCollide | SCKeychainManager/Classes/SCKeychainOperation.swift:24 | operations of different kinds never share an internal key, even for the same key |
| Utf8.Encode | SCKeychainManager/Classes/SCKeychainOperationValueConverter.swift:20-21 | a string encodes to between one and four bytes per character |
| Utf8.DecodeScalar | SCKeychainManager/Classes/SCKeychainManager.swift:147 | a decoded character consumed 1 to 4 bytes, and those bytes are exactly its encoding |
| Utf8.Decode | SCKeychainManager/Classes/SCKeychainManager.swift:147 | a string decoded from bytes encodes back to those same bytes |
| Utf8.DecodeEncode | SCKeychainManager/Classes/SCKeychainOperationValueConverter.swift:20-21 | decoding a string's encoding gives the string back |
| Utf8.EncodeInjective | SCKeychainManager/Classes/SCKeychainOperationValueConverter.swift:20-21 | two strings have the same encoding if and only if they are equal |
| ValueConverter.Unsigned | SCKeychainManager/Classes/SCKeychainOperationValueConverter.swift:53-55 | the bit pattern of an Int is its value modulo 2^64 |
| ValueConverter.Signed | SCKeychainManager/Classes/SCKeychainOperationValueConverter.swift:57-62 | reading a bit pattern as an Int inverts `Unsigned`, and only the zero pattern reads as zero |
| ValueConverter.IntBytes | SCKeychainManager/Classes/SCKeychainOperationValueConverter.swift:53-55 | an Int becomes exactly `MemoryLayout<Int>.size` (eight) bytes whose little-endian value is its bit pattern |
| ValueConverter.IntegerFrom | SCKeychainManager/Classes/SCKeychainOperationValueConverter.swift:46-48 | nil exactly when there are fewer than eight bytes; otherwise the Int whose bytes are the first eight |
| ValueConverter.BoolFrom | SCKeychainManager/Classes/SCKeychainOperationValueConverter.swift:39-44 | nil exactly when there are fewer than eight bytes; otherwise true exactly when one of the first eight bytes is non-zero |
| ValueConverter.DataWith | SCKeychainManager/Classes/SCKeychainOperationValueConverter.swift:17-37 | it fails exactly for an unsupported type, with `unsupportedValueType`; a string decodes back; a Bool gives the bytes of Int 1 or 0 and reads back; an Int gives eight bytes and reads back |
| ValueConverter.DataTo | SCKeychainManager/Classes/SCKeychainOperationValueConverter.swift:57-62 | the guard and the byte-copy loop compute `IntegerFrom` |
| ValueConverter.IntRoundTrip | SCKeychainManager/Classes/SCKeychainOperationValueConverter.swift:46-62 | `integer(from: data(with: n)) == n` for every Int |
| ValueConverter.BoolRoundTrip | SCKeychainManager/Classes/SCKeychainOperationValueConverter.swift:23-26 | `bool(from: data(with: b)) == b` |
| ValueConverter.IntegerFromIgnoresTrailing | SCKeychainManager/Classes/SCKeychainOperationValueConverter.swift:57-62 | bytes after the first eight do not change the decoded Int |
| ValueConverter.BoolStoredAsInt | SCKeychainManager/Classes/SCKeychainOperationValueConverter.swift:23-26 | a Bool is stored as the Int 1 or 0, with no type tag |
| ValueConverter.IntReadAsBool | SCKeychainManager/Classes/SCKeychainOperationValueConverter.swift:39-44 | an Int read as a Bool is true exactly when it is non-zero, so a stored 0 reads as false |
| Options.BuilderOptions.constructor | SCKeychainManager/Classes/SCKeychainOperationBuilder.swift:14-17 | new options are in-foreground-only without iCloud sync |
| Manager.IdOfInjective | SCKeychainManager/Classes/SCKeychainManager.swift:71-76 | two keys name the same item if and only if they are equal |
| Manager.AccessibilityFor | SCKeychainManager/Classes/SCKeychainManager.swift:213-255 | the constant is unlock-only exactly when `onlyInForeground` holds, and it migrates to a new device exactly when `icloudSync` holds |
| Manager.AccessibilityForInjective | SCKeychainManager/Classes/SCKeychainManager.swift:213-255 | the four option pairs map to four distinct constants |
| Manager.SetEffect | SCKeychainManager/Classes/SCKeychainManager.swift:68-103 | other items never change and a failure changes nothing. It succeeds exactly when the add is accepted and, for an existing item, the update is accepted. `errorSettingKey` is thrown exactly when the add is refused. `errorUpdatingKey` is thrown only for an existing item. On success the item holds the value (a new item with the chosen accessibility, or an existing one with only its data replaced) |
| Manager.RemoveEffect | SCKeychainManager/Classes/SCKeychainManager.swift:105-126 | other items never change. It succeeds exactly when the item exists and the delete is accepted, and the item is then gone. Otherwise it throws `errorRemovingKey` for the key and changes nothing; an absent key throws it with item-not-found unless the delete is refused |
| Manager.StepEffect | SCKeychainManager/Classes/SCKeychainManager.swift:50-64 | one loop turn touches only its key's item, and a failure changes nothing. A get does nothing. A set without a value throws `invalidValueForKey` |
| Manager.ApplyEffect | SCKeychainManager/Classes/SCKeychainManager.swift:48-66 | a batch made only of gets succeeds and changes nothing |
| Manager.StoredData | SCKeychainManager/Classes/SCKeychainManager.swift:166-182 | data comes back exactly when the item exists and the copy is accepted, and it is the item's data |
| Manager.ApplyEffectAppend | SCKeychainManager/Classes/SCKeychainManager.swift:49-65 | applying `a + b` is applying `a` and, unless it threw, then applying `b` to the result |
| Manager.ApplyEffectSnoc | SCKeychainManager/Classes/SCKeychainManager.swift:49-65 | one more loop turn extends the applied prefix by one step |
| Manager.ApplyEffectFailure | SCKeychainManager/Classes/SCKeychainManager.swift:48-66 | a failing batch stops at some operation i. What operations before i did stays (no rollback), and operation i's error is the batch's error |
| Manager.ApplyEffectUntouched | SCKeychainManager/Classes/SCKeychainManager.swift:48-66 | an item named by no operation of the batch is unchanged |
| Manager.StepEffectLocal | SCKeychainManager/Classes/SCKeychainManager.swift:50-64 | an operation's outcome and effect on its item depend only on that item |
| Manager.RestUnaffected | SCKeychainManager/Classes/SCKeychainManager.swift:49-65 | on distinct keys, the operations after the first behave as they would on the initial keychain |
| Manager.ApplyEffectDistinctPass | SCKeychainManager/Classes/SCKeychainManager.swift:48-66 | a batch on distinct keys succeeds if and only if each operation alone would succeed on the initial keychain |
| Manager.ApplyEffectDistinct | SCKeychainManager/Classes/SCKeychainManager.swift:48-66 | after a successful batch on distinct keys, each operation's item is as that operation alone would leave it |
| Manager.AllStepsPassSameElements | SCKeychainManager/Classes/SCKeychainManager.swift:48-66 | whether every step succeeds alone depends only on which operations are in the batch, not on their order |
| Manager.OrderIndependent | SCKeychainManager/Classes/SCKeychainManager.swift:48-66 | two orders of the same operations on distinct keys succeed together and, when they do, leave the same keychain |
| Manager.SameKeyOrderMatters | SCKeychainManager/Classes/SCKeychainManager.swift:48-66 | on an empty keychain, set-then-remove of one key succeeds and empties it, while remove-then-set throws `errorRemovingKey` with item-not-found |
| Manager.SetThenGet | SCKeychainManager/Classes/SCKeychainManager.swift:145-182 | after a successful set of a string, Bool or Int, the typed getter for that type returns the value unless the read is refused |
| Manager.RemoveThenGet | SCKeychainManager/Classes/SCKeychainManager.swift:145-182 | after a successful remove, every typed getter returns nil |
| Manager.KeychainManager.constructor | SCKeychainManager/Classes/SCKeychainManager.swift:37-40 | stores the service name and the access group |
| Manager.KeychainManager.CreateTypedQuery | SCKeychainManager/Classes/SCKeychainManager.swift:201-258 | the query holds the class and service, the access group only when there is one, and an accessibility attribute only when options are given; the attribute is `AccessibilityFor` of the options |
| Manager.KeychainManager.Set | SCKeychainManager/Classes/SCKeychainManager.swift:68-103 | the outcome and the new keychain are those of `SetEffect` with the options' accessibility |
| Manager.KeychainManager.RemoveValue | SCKeychainManager/Classes/SCKeychainManager.swift:105-126 | the outcome and the new keychain are those of `RemoveEffect` |
| Manager.KeychainManager.Apply | SCKeychainManager/Classes/SCKeychainManager.swift:48-66 | the loop's outcome and the new keychain are those of `ApplyEffect` on the operations in the given order |
| Manager.KeychainManager.DataForKey | SCKeychainManager/Classes/SCKeychainManager.swift:166-182 | returns `StoredData` |
| Manager.KeychainManager.StringForKey | SCKeychainManager/Classes/SCKeychainManager.swift:145-150 | returns the stored bytes decoded as UTF-8, nil when absent or not UTF-8 |
| Manager.KeychainManager.IntegerForKey | SCKeychainManager/Classes/SCKeychainManager.swift:152-157 | returns the stored bytes decoded as an Int, nil when absent or shorter than eight bytes |
| Manager.KeychainManager.BoolForKey | SCKeychainManager/Classes/SCKeychainManager.swift:159-164 | returns the stored bytes decoded as a Bool, nil when absent or shorter than eight bytes |
| Builder.Insert | SCKeychainManager/Classes/SCKeychainOperationBuilder.swift:65 | the entry is stored under the operation's internal key, and every other entry is kept |
| Builder.HasInconsistentOperations | SCKeychainManager/Classes/SCKeychainOperationBuilder.swift:95-99 | true if and only if some entry is a set or a remove and some entry is a get |
| Builder.WritesOnlyConsistent | SCKeychainManager/Classes/SCKeychainOperationBuilder.swift:95-99 | a table without gets is never inconsistent |
| Builder.InsertKeepsInvariant | SCKeychainManager/Classes/SCKeychainOperationBuilder.swift:64-65 | inserting a set with a value, or a remove without one, keeps every entry under its own internal key and keeps gets out |
| Builder.LastWriteWins | SCKeychainManager/Classes/SCKeychainOperationBuilder.swift:61-65 | setting a key twice leaves the same table as setting it only the second time |
| Builder.RemoveKeepsPendingSet | SCKeychainManager/Classes/SCKeychainOperationBuilder.swift:79-82 | removing a key keeps a pending set of that key beside the remove |
| Builder.Values | SCKeychainManager/Classes/SCKeychainOperationBuilder.swift:92 | lists every entry of the table exactly once, in some order |
| Builder.EnumerationDistinct | SCKeychainManager/Classes/SCKeychainOperationBuilder.swift:92 | with one entry per key, the listed operations have distinct keys |
| Builder.EnumerationsSameElements | SCKeychainManager/Classes/SCKeychainOperationBuilder.swift:92 | any two listings of a table hold the same operations |
| Builder.EnumerationOrderIrrelevant | SCKeychainManager/Classes/SCKeychainOperationBuilder.swift:88-92 | with one entry per key, every listing order succeeds or fails together and leaves the same keychain |
| Builder.SetAndRemoveOrderMatters | SCKeychainManager/Classes/SCKeychainOperationBuilder.swift:88-92 | a table with a set and a remove of one key has two listings, and on an empty keychain one succeeds while the other throws |
| Builder.ApplyThenReadAt | SCKeychainManager/Classes/SCKeychainOperationBuilder.swift:88-92 | after a successful batch on distinct keys, a set's key reads back its bytes and a remove's key reads nil, unless the read is refused |
| Builder.ApplyThenRead | SCKeychainManager/Classes/SCKeychainOperationBuilder.swift:88-92 | after a successful apply of a table with one entry per key, every set key reads back its bytes and every removed key reads nil, unless the read is refused |
| Builder.SingleEnumeration | SCKeychainManager/Classes/SCKeychainOperationBuilder.swift:92 | a table with one entry has only one listing |
| Builder.OperationBuilder.constructor | SCKeychainManager/Classes/SCKeychainOperationBuilder.swift:23-29 | fresh options with `onlyInForeground == securely` and no iCloud sync, and an empty table |
| Builder.OperationBuilder.AddingSetOperation | SCKeychainManager/Classes/SCKeychainOperationBuilder.swift:61-70 | it fails exactly when encoding throws, with the converter's error, and the table is then unchanged. Otherwise the set is inserted under its internal key. The invariant is kept |
| Builder.OperationBuilder.SetString | SCKeychainManager/Classes/SCKeychainOperationBuilder.swift:38-40 | never throws, and inserts a set of the string's UTF-8 bytes |
| Builder.OperationBuilder.SetBool | SCKeychainManager/Classes/SCKeychainOperationBuilder.swift:45-47 | never throws, and inserts a set of the bytes of Int 1 or 0 |
| Builder.OperationBuilder.SetInteger | SCKeychainManager/Classes/SCKeychainOperationBuilder.swift:52-54 | never throws, and inserts a set of the Int's eight bytes |
| Builder.OperationBuilder.RemoveObject | SCKeychainManager/Classes/SCKeychainOperationBuilder.swift:79-83 | inserts a remove without a value under its internal key, and keeps the invariant |
| Builder.OperationBuilder.Apply | SCKeychainManager/Classes/SCKeychainOperationBuilder.swift:88-93 | an inconsistent table throws `inconsistentOperations` and leaves the keychain alone. Otherwise every entry goes to the manager exactly once, in the listed order, with the builder's options, and the outcome and keychain are those of `ApplyEffect`. A builder keeping its invariant never throws `inconsistentOperations` |
| Builder.Securely | SCKeychainManager/Classes/SCKeychainManager.swift:42-44 | a new builder on this manager with `onlyInForeground` true, no iCloud sync and no operations |
| Builder.SetApplyThenRead | Example/Tests/Tests.swift:68-73 | setting a string through a secure builder and applying it: when the apply succeeds and the read is accepted, `string(forKey:)` returns the string |
| Builder.RemoveApplyThenRead | Example/Tests/Tests.swift:90-103 | removing a key through a secure builder and applying it: when the apply succeeds, the string, Bool and Int getters all return nil |

## Left out

- Security.framework (`SecItemAdd`, `SecItemUpdate`, `SecItemDelete`, `SecItemCopyMatching`) is a foreign call. It is modelled by the abstract `Keychain` class, whose answers beyond presence come from the `refuse` parameter. The model does not capture platform matching rules such as access-group scoping, or matching by accessibility in an update.
- Error message text (`SecCopyErrorMessageString`, the `#available(iOS 11.3, *)` branches, the message strings) is platform text. Errors carry their kind, key and status instead.
- `rsaPublicKey(identifiedBy:)` and `createRSAPublicKeyTypedQuery` return an opaque `SecKey` and contain no logic of their own.
- The singleton `standard` and its `Bundle.main.bundleIdentifier` lookup are environment lookup.
- `authenticationAllowableReuseDuration` is stored and never used.
- The order of `operations.values` is unspecified. `Builder.Values` chooses it nondeterministically and `Builder.OperationBuilder.Apply` reports the order it used; no particular order is claimed.
- The fluent `return self` of the setters is not modelled; each builder method returns only its outcome.
- `invalidKey` and `couldNotEncodeValue` exist as error cases but cannot be raised, because encoding a Swift `String` as UTF-8 never fails. The model has no path that raises them.
- Utf8.Decode: Swift's `String(data:encoding:)` is modelled as strict UTF-8 decoding. Foundation's treatment of a leading byte-order mark is not modelled.
- The example tests that generate RSA keys use concurrency and real cryptography; only the set, read and remove scenarios are modelled.
- Builder.Insert: table keys, like all strings in the model, are compared as sequences of Unicode scalars, not by Swift's canonical equivalence. Swift's `String`-keyed dictionary treats `"s-\u{E9}"` and `"s-e\u{301}"` as one key, so `set("a", forKey: "\u{E9}").set("b", forKey: "e\u{301}")` keeps a single entry. The model keeps two entries and writes two items. The same holds for `Manager.IdOfInjective` and the other "equal key" statements: they mean scalar equality. The keychain account is the key's UTF-8 bytes, and those bytes do tell the two spellings apart.
- Manager.ApplyEffectDistinctPass, Manager.OrderIndependent and Builder.EnumerationOrderIrrelevant: these hold relative to an environment whose answers depend on neither time, call order nor other items (the fixed `refuse`). A device that locks halfway through a batch, or a refusal that depends on other items, is not modelled, and with one the order of a batch could matter even on distinct keys.
- Swift's `Int` width is fixed to 64 bits. A 32-bit platform would use four bytes.

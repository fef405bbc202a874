# Symfony LDAP `Entry`, modelled in Dafny

This project models the `Entry` class of Symfony's LDAP component. An entry is
one directory record: a distinguished name (DN) plus a table that maps
attribute names to lists of string values. The class has one normalisation
step. Whatever PHP array an attribute's values arrive in, it is stored as a
list: the same values in the same order, with keys 0, 1, 2, ... This happens
in the constructor (`array_map` of `array_values` over the whole table) and
in `setAttribute` (`array_values` of the new value).

Files:

- `php_array.dfy`, module `PhpArray`. This models the part of PHP's built-in
  array that the class uses. A PHP array is an ordered table with unique
  keys. It is modelled as the sequence of its `(key, value)` entries in
  iteration order, and `UniqueKeys` is the invariant every PHP array keeps.
  The module defines:
  - lookup (`Find`, `Lookup`);
  - assignment `$a[$k] = $v` (`Assign`): an existing key keeps its position,
    a new key is appended;
  - `unset($a[$k])` (`Unset`);
  - `array_values` (`Values`);
  - `array_map` over a single array (`MapValues`);
  - the PHP list holding a sequence (`ListOf`, `IsList`);
  - an order-forgetting map view (`ToMap`).

  The lemmas relate these operations to each other and to Dafny's own `map`
  update and removal.
- `entry.dfy`, module `Ldap`, class `Entry`. Its fields are `dn` and
  `attributes`, the PHP array from names to value lists. The ghost function
  `Table()` is the map view of `attributes`. The constructor and the two
  mutators are methods with `modifies this`. The accessors are functions that
  read `this`. `AdminEntry` is a client that works through the record of an
  administrator with two mail addresses. It relies on the members' contracts
  and on the definitions of the array functions.

Design choices:

- `dn` is a `const` field. The constructor assigns it and nothing else can,
  so "the DN never changes after construction" is enforced by Dafny itself.
- The attribute table is kept ordered, as PHP keeps it. `getAttributes()`
  returns the table in iteration order. Replacing an existing attribute keeps
  its position. A new attribute goes last. The ordering is stated through
  `KeysOf`, and the key/value meaning through `Lookup` and `Table()`.
- PHP's `isset($a[$k])` is false both for a missing key and for a key that
  holds `null`. In this class every stored value is an array, never `null`. So
  `isset` is key presence, and `Lookup(...).Some?` models it.
- LDAP itself treats an entry's attributes as an unordered set (section 2.2
  of RFC 4512). A PHP array keeps insertion order anyway, and
  `getAttributes()` exposes it, so the model follows the code and keeps the
  order.

## Model

| member | source | states |
|---|---|---|
| `Ldap.Entry.constructor` | src/Symfony/Component/Ldap/Entry.php:22-26 | `GetDn()` is the given DN verbatim. The table has exactly the input's attribute names, in the input's order. Each name reads as the input's values for it, re-indexed into a list. The table has unique names. |
| `Ldap.Entry.ResetValuesIndex` | src/Symfony/Component/Ldap/Entry.php:35-40 | The resulting table has the same names in the same order (`array_map` keeps the outer keys). Each name's value is `array_values` of the input value for it. Absent names stay absent. Unique names stay unique. |
| `Ldap.Entry.GetDn` | src/Symfony/Component/Ldap/Entry.php:47-50 | Returns the stored DN. The promise is carried by the constructor's `ensures GetDn() == dn` and by `dn` being a `const` that no method can assign. |
| `Ldap.Entry.HasAttribute` | src/Symfony/Component/Ldap/Entry.php:59-62 | True exactly when `name` is one of the table's keys, including when its list is empty. |
| `Ldap.Entry.GetAttribute` | src/Symfony/Component/Ldap/Entry.php:74-77 | Non-null exactly when `HasAttribute(name)` holds. When the entry for `name` is present, the result is its stored list, which is also `Table()[name]`. |
| `Ldap.Entry.GetAttributes` | src/Symfony/Component/Ldap/Entry.php:84-87 | The returned table has the stored names in their iteration order. Every name looked up in the returned table gives `GetAttribute(name)`. The returned table has unique names, and its map view is `Table()`. |
| `Ldap.Entry.SetAttribute` | src/Symfony/Component/Ldap/Entry.php:95-98 | Afterwards `HasAttribute(name)` holds even for an empty value, and `GetAttribute(name)` is the given values, in order, as a list. Every other name reads as before. An existing name keeps its position and a new name goes last. `Table()` is the old table updated at `name`. The DN cannot change. |
| `Ldap.Entry.RemoveAttribute` | src/Symfony/Component/Ldap/Entry.php:105-108 | Afterwards `HasAttribute(name)` is false and `GetAttribute(name)` is null. Every other name reads as before, and the remaining names keep their order. If `name` was absent, the table is unchanged. `Table()` is the old table minus `name`. |
| `PhpArray.Find` | src/Symfony/Component/Ldap/Entry.php:61 | The hash lookup behind `isset`. It gives the first position holding the key, or none if no position holds it. |
| `PhpArray.Lookup` | src/Symfony/Component/Ldap/Entry.php:76 | `isset($a[$k]) ? $a[$k] : null`. The result is present exactly when the key is among the array's keys. In a PHP array, the result is the value at the key's position. |
| `PhpArray.Values` | src/Symfony/Component/Ldap/Entry.php:97 | `array_values` has as many elements as the array has entries. Its element `i` is the value of entry `i`, so order is kept and the keys are dropped. |
| `PhpArray.ListOfValues` | src/Symfony/Component/Ldap/Entry.php:38 | Read as a PHP array, the result of `array_values` is a list with keys 0, 1, 2, ... and unique keys. Applying `array_values` to it again gives the same values. |
| `PhpArray.ValuesOfList` | src/Symfony/Component/Ldap/Entry.php:38 | On an array that is already a list, `array_values` changes nothing. |
| `PhpArray.MapValues` | src/Symfony/Component/Ldap/Entry.php:37-39 | Single-array `array_map` keeps the keys and their order. |
| `PhpArray.MapValuesLookup` | src/Symfony/Component/Ldap/Entry.php:37-39 | Single-array `array_map` keeps every key and its position, and keeps keys unique. Each key reads as the image of its old value, and absent keys stay absent. |
| `PhpArray.AssignLookup` | src/Symfony/Component/Ldap/Entry.php:97 | After `$a[$k] = $v`, `$a[$k]` reads `$v`. Every other key reads as before. |
| `PhpArray.Assign` | src/Symfony/Component/Ldap/Entry.php:97 | `$a[$k] = $v` keeps the key order when `$k` is present and appends `$k` when it is not. |
| `PhpArray.AssignUnique` | src/Symfony/Component/Ldap/Entry.php:97 | `$a[$k] = $v` keeps keys unique. |
| `PhpArray.AssignIdempotent` | src/Symfony/Component/Ldap/Entry.php:97 | Assigning the same value twice gives the same array as assigning it once. |
| `PhpArray.ToMapAssign` | src/Symfony/Component/Ldap/Entry.php:97 | The map view of `$a[$k] = $v` is map update `m[k := v]`. |
| `PhpArray.Unset` | src/Symfony/Component/Ldap/Entry.php:107 | `unset` of an absent key leaves the array unchanged. `unset` of a present key removes exactly one entry. |
| `PhpArray.UnsetLookup` | src/Symfony/Component/Ldap/Entry.php:107 | After `unset($a[$k])`, `$a[$k]` is absent. Every other key reads as before. |
| `PhpArray.UnsetUnique` | src/Symfony/Component/Ldap/Entry.php:107 | `unset` keeps keys unique. |
| `PhpArray.UnsetKeys` | src/Symfony/Component/Ldap/Entry.php:107 | `unset` leaves the old key order without `$k`. `unset` of an absent key leaves the array unchanged. |
| `PhpArray.UnsetIdempotent` | src/Symfony/Component/Ldap/Entry.php:107 | Removing a key twice gives the same array as removing it once. |
| `PhpArray.ToMapUnset` | src/Symfony/Component/Ldap/Entry.php:107 | The map view of `unset($a[$k])` is map removal `m - {k}`. |

## Left out

- PHP key coercion: a numeric-string key such as `"123"` becomes an integer key in a PHP array. Attribute names are modelled as plain strings.
- Inner values that are not arrays: passing one to the constructor makes `array_values` fail. The model's input type allows only arrays of strings.
- Copy versus reference semantics of the array that `getAttributes()` returns: in Dafny the returned table is an immutable value.
- Arguments of other PHP types: `hasAttribute`, `getAttribute`, `setAttribute` and `removeAttribute` take an untyped `$name`. The model takes a string.
- Validation of DN syntax or attribute names: the class does none, so there is nothing to model.
- The rest of the LDAP component (connections, binding, searching, adapters) is not part of this model. It is I/O and a foreign extension.
- Idempotence of `Ldap.Entry.SetAttribute` and `Ldap.Entry.RemoveAttribute` is proved about the array operations their contracts name (`PhpArray.AssignIdempotent`, `PhpArray.UnsetIdempotent`), not as a separate statement about two method calls.

/** An LDAP directory entry (src/Symfony/Component/Ldap/Entry.php): a
    distinguished name and an ordered table from attribute names to lists of
    string values. Whatever array an attribute is given, it is stored as a
    list: its values in their order, re-indexed from 0.
 */
module Ldap {
  import opened PhpArray

  class Entry {
    /** The distinguished name: set by the constructor, never changed. */
    const dn: string
    /** The attribute table in iteration order; each value is a list. */
    var attributes: Arr<string, seq<string>>

    /** The table is a PHP array: no attribute name occurs twice. */
    ghost predicate Valid()
      reads this
    {
      UniqueKeys(attributes)
    }

    /** The table as a finite map from attribute names to value lists. */
    ghost function Table(): map<string, seq<string>>
      reads this
    {
      ToMap(attributes)
    }

    /** Stores `dn` as given and every attribute of `attributes` with its
        values re-indexed into a list. */
    constructor (dn: string, attributes: Arr<string, Arr<Key, string>> := [])
      requires UniqueKeys(attributes)
      ensures Valid()
      ensures GetDn() == dn
      ensures this.attributes == ResetValuesIndex(attributes)
      ensures KeysOf(this.attributes) == KeysOf(attributes)
      ensures forall n :: GetAttribute(n) == match Lookup(attributes, n)
                                             case None => None
                                             case Some(v) => Some(Values(v))
    {
      this.dn := dn;
      this.attributes := ResetValuesIndex(attributes);
    }

    /** `array_map` of `array_values` over the table: the same names in the
        same order, each with the values it was given, as a list. */
    static function ResetValuesIndex(attributes: Arr<string, Arr<Key, string>>): (r: Arr<string, seq<string>>)
      ensures KeysOf(r) == KeysOf(attributes)
      ensures UniqueKeys(attributes) ==> UniqueKeys(r)
      ensures forall n :: Lookup(r, n) == match Lookup(attributes, n)
                                          case None => None
                                          case Some(v) => Some(Values(v))
    {
      var reindex := (v: Arr<Key, string>) => Values(v);
      MapValuesLookup(attributes, reindex);
      MapValues(attributes, reindex)
    }

    function GetDn(): string {
      dn
    }

    /** Whether the table has an entry for `name`, even one with no values. */
    function HasAttribute(name: string): (b: bool)
      reads this
      ensures b <==> name in KeysOf(attributes)
    {
      Lookup(attributes, name).Some?
    }

    /** The values stored for `name`, or `None` (PHP's null) if there is no
        such attribute. */
    function GetAttribute(name: string): (r: Option<seq<string>>)
      reads this
      ensures r.Some? <==> HasAttribute(name)
      ensures Valid() ==> forall i :: 0 <= i < |attributes| && attributes[i].0 == name ==>
                                        r == Some(attributes[i].1)
      ensures Valid() && r.Some? ==> name in Table() && Table()[name] == r.value
    {
      Lookup(attributes, name)
    }

    /** The whole current table. */
    function GetAttributes(): (r: Arr<string, seq<string>>)
      reads this
      ensures KeysOf(r) == KeysOf(attributes)
      ensures forall n :: Lookup(r, n) == GetAttribute(n)
      ensures Valid() ==> UniqueKeys(r) && ToMap(r) == Table()
    {
      attributes
    }

    /** `$this->attributes[$name] = array_values($value)`. */
    method SetAttribute(name: string, value: Arr<Key, string>)
      requires Valid()
      modifies this
      ensures Valid()
      ensures attributes == Assign(old(attributes), name, Values(value))
      ensures HasAttribute(name) && GetAttribute(name) == Some(Values(value))
      ensures forall n :: n != name ==> GetAttribute(n) == old(GetAttribute(n))
      ensures KeysOf(attributes) == if old(HasAttribute(name)) then old(KeysOf(attributes))
                                    else old(KeysOf(attributes)) + [name]
      ensures Table() == old(Table())[name := Values(value)]
    {
      forall n { AssignLookup(attributes, name, Values(value), n); }
      AssignUnique(attributes, name, Values(value));
      ToMapAssign(attributes, name, Values(value));
      attributes := Assign(attributes, name, Values(value));
    }

    /** `unset($this->attributes[$name])`. */
    method RemoveAttribute(name: string)
      requires Valid()
      modifies this
      ensures Valid()
      ensures attributes == Unset(old(attributes), name)
      ensures !HasAttribute(name) && GetAttribute(name) == None
      ensures forall n :: n != name ==> GetAttribute(n) == old(GetAttribute(n))
      ensures KeysOf(attributes) == Without(old(KeysOf(attributes)), name)
      ensures !old(HasAttribute(name)) ==> attributes == old(attributes)
      ensures Table() == old(Table()) - {name}
    {
      forall n { UnsetLookup(attributes, name, n); }
      UnsetUnique(attributes, name);
      UnsetKeys(attributes, name);
      ToMapUnset(attributes, name);
      attributes := Unset(attributes, name);
    }
  }

  /** What a caller can conclude from the contracts alone, on the entry of an
      administrator with two mail addresses. */
  method AdminEntry()
  {
    var mails := [(IntKey(0), "a@example.com"), (IntKey(1), "b@example.com")];
    var e := new Entry("cn=admin,dc=example,dc=com", [("mail", mails)]);
    assert KeysOf([("mail", mails)])[0] == "mail";
    assert Values(mails)[0] == "a@example.com" && Values(mails)[1] == "b@example.com";
    assert Values(mails) == ["a@example.com", "b@example.com"];
    assert e.GetDn() == "cn=admin,dc=example,dc=com";
    assert e.HasAttribute("mail");
    assert e.GetAttribute("mail") == Some(["a@example.com", "b@example.com"]);
    assert !e.HasAttribute("sn");
    assert e.GetAttribute("sn") == None;

    var cn := [(StrKey("first"), "Admin")];
    assert Values(cn)[0] == "Admin";
    assert Values(cn) == ["Admin"];
    e.SetAttribute("cn", cn);
    assert e.GetAttribute("cn") == Some(["Admin"]);
    e.RemoveAttribute("cn");
    assert !e.HasAttribute("cn");
    assert e.GetAttribute("mail") == Some(["a@example.com", "b@example.com"]);
    assert e.GetDn() == "cn=admin,dc=example,dc=com";
  }
}

/**
 * A minimal model of the qualified-name collaborator: a local name with an
 * optional namespace URI and an optional prefix, in a borrowed and an owned
 * flavour. Only its fields, its borrow conversion and its textual form are
 * modelled; the textual form is the one the attribute test pins,
 * `{namespace}prefix:local`, with the braces part and the `prefix:` part
 * present only when the name has a namespace or a prefix.
 */
module XmlName {
  import opened Wrappers

  /** A borrowed qualified name. */
  datatype Name = Name(localName: string, namespace: Option<string>, prefix: Option<string>) {

    /** Name::qualified: a name in a namespace, with an optional prefix. */
    static function Qualified(localName: string, namespace: string, prefix: Option<string>): (n: Name)
      ensures n.localName == localName && n.namespace == Some(namespace) && n.prefix == prefix
    {
      Name(localName, Some(namespace), prefix)
    }

    /** A name with neither namespace nor prefix. */
    static function Local(localName: string): (n: Name)
      ensures n.localName == localName && n.namespace == None && n.prefix == None
    {
      Name(localName, None, None)
    }

    /** The textual form of the name, as written before `=` in an attribute. */
    function ToString(): (r: string)
      ensures |r| >= |localName| && r[|r| - |localName|..] == localName
      ensures namespace.Some? ==> "{" + namespace.value + "}" <= r
      ensures namespace == None && prefix == None ==> r == localName
    {
      var ns := if namespace.Some? then "{" + namespace.value + "}" else "";
      var px := if prefix.Some? then prefix.value + ":" else "";
      assert (ns + px + localName)[..|ns|] == ns;
      ns + px + localName
    }
  }

  /**
   * The textual forms of a name: `{namespace}prefix:local`, where the
   * namespace part and the prefix part are present only when the name has
   * them; `Name.Qualified("attribute", "urn:namespace", Some("n"))` gives
   * `{urn:namespace}n:attribute`.
   */
  lemma NameText(localName: string, namespace: string, prefix: string)
    ensures Name.Qualified(localName, namespace, Some(prefix)).ToString()
            == "{" + namespace + "}" + prefix + ":" + localName
    ensures Name.Qualified(localName, namespace, None).ToString() == "{" + namespace + "}" + localName
    ensures Name(localName, None, Some(prefix)).ToString() == prefix + ":" + localName
    ensures Name.Local(localName).ToString() == localName
  {
    assert "{" + namespace + "}" + (prefix + ":") + localName == "{" + namespace + "}" + prefix + ":" + localName;
    assert "{" + namespace + "}" + "" + localName == "{" + namespace + "}" + localName;
    assert "" + (prefix + ":") + localName == prefix + ":" + localName;
    assert "" + "" + localName == localName;
  }

  /** An owned qualified name. */
  datatype OwnedName = OwnedName(localName: string, namespace: Option<string>, prefix: Option<string>) {

    /** A borrowed view of this name: the same three parts. */
    function Borrow(): (n: Name)
      ensures n.localName == localName && n.namespace == namespace && n.prefix == prefix
    {
      Name(localName, namespace, prefix)
    }

    /** The textual form of an owned name: that of its borrowed view. */
    function ToString(): (r: string)
      ensures |r| >= |localName| && r[|r| - |localName|..] == localName
      ensures namespace.Some? ==> "{" + namespace.value + "}" <= r
      ensures namespace == None && prefix == None ==> r == localName
    {
      Borrow().ToString()
    }
  }
}

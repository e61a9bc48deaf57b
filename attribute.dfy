/**
 * XML attributes: a qualified name paired with a raw string value, in a
 * borrowed flavour (Attribute) and an owned one (OwnedAttribute), and their
 * textual form `NAME="ESCAPED_VALUE"`.
 *
 * Lifetimes are dropped: a borrowed attribute is a plain value whose fields
 * are those of whatever it was built from. Equality of both flavours is
 * Dafny's structural equality on datatypes, that is, field by field.
 */
module XmlAttribute {
  import opened Wrappers
  import opened XmlEscape
  import opened XmlName

  /** The format both Display impls write: the name's text, `="`, the escaped value, `"`. */
  function Render(nameText: string, value: string): string
  {
    nameText + "=\"" + Escape(value) + "\""
  }

  /**
   * The layout of a rendered attribute: the name's text, then `="`, then a
   * value region holding no `"` that reads back, by Unescape, as the raw
   * value, then the closing `"`.
   */
  lemma RenderLayout(nameText: string, value: string)
    ensures var r, k := Render(nameText, value), |nameText| + 2;
            k < |r| && r[..|nameText|] == nameText && r[|nameText|..k] == "=\"" && r[|r| - 1] == '"'
            && (forall i :: k <= i < |r| - 1 ==> r[i] != '"')
            && WellEscaped(r[k..|r| - 1]) && Unescape(r[k..|r| - 1]) == value
  {
    var e := Escape(value);
    var r := Render(nameText, value);
    var k := |nameText| + 2;
    assert r[k..|r| - 1] == e;
    EscapeHasNoBareMarkup(value);
    forall i | k <= i < |r| - 1 ensures r[i] != '"' {
      assert r[i] == e[i - k];
    }
    EscapeIsWellEscaped(value);
    UnescapeEscape(value);
  }

  /** A borrowed attribute. */
  datatype Attribute = Attribute(name: Name, value: string) {

    /** Attribute::new: stores both arguments as they are. */
    static function New(name: Name, value: string): (a: Attribute)
      ensures a.name == name && a.value == value
    {
      Attribute(name, value)
    }

    /** Display for Attribute. */
    function ToString(): string
    {
      Render(name.ToString(), value)
    }
  }

  /** An owned attribute. */
  datatype OwnedAttribute = OwnedAttribute(name: OwnedName, value: string) {

    /** OwnedAttribute::new: stores both arguments as they are. */
    static function New(name: OwnedName, value: string): (a: OwnedAttribute)
      ensures a.name == name && a.value == value
    {
      OwnedAttribute(name, value)
    }

    /** OwnedAttribute::borrow: a borrowed view whose parts are this attribute's parts. */
    function Borrow(): (a: Attribute)
      ensures a.name == name.Borrow() && a.value == value
      ensures a.name.localName == name.localName && a.name.namespace == name.namespace
              && a.name.prefix == name.prefix
    {
      Attribute(name.Borrow(), value)
    }

    /** Display for OwnedAttribute, written on the owned fields directly. */
    function ToString(): string
    {
      Render(name.ToString(), value)
    }
  }

  /** The position of the last `"` in `s`, or -1 if there is none. */
  function LastQuote(s: string): (k: int)
    ensures -1 <= k < |s|
    ensures k >= 0 ==> s[k] == '"'
    ensures forall i :: k < i < |s| ==> s[i] != '"'
  {
    if s == [] then -1
    else if s[|s| - 1] == '"' then |s| - 1
    else LastQuote(s[..|s| - 1])
  }

  /**
   * A reader for the rendered form: splits `NAME="ESCAPED"` into the name's
   * text and the raw value. The value's opening quote is the last `"` before
   * the closing one, which is found without knowing anything about the name.
   */
  function SplitRendered(r: string): Option<(string, string)>
  {
    if r == [] || r[|r| - 1] != '"' then None
    else
      var k := LastQuote(r[..|r| - 1]);
      if k < 1 || r[k - 1] != '=' then None
      else
        var v := r[k + 1..|r| - 1];
        if !WellEscaped(v) then None
        else Some((r[..k - 1], Unescape(v)))
  }

  /** Whatever the reader accepts is the rendering of what it returns. */
  lemma SplitRenderedSound(r: string)
    ensures SplitRendered(r).Some? ==> r == Render(SplitRendered(r).value.0, SplitRendered(r).value.1)
  {
    if SplitRendered(r).Some? {
      var k := LastQuote(r[..|r| - 1]);
      var n, v := r[..k - 1], r[k + 1..|r| - 1];
      assert SplitRendered(r).value == (n, Unescape(v));
      assert Render(n, Unescape(v)) == n + "=\"" + v + "\"" by {
        EscapeUnescape(v);
      }
      Regroup(r, k);
    }
  }

  /** A string cut around `="` at `k - 1` and a final `"`. */
  lemma Regroup(r: string, k: int)
    requires 1 <= k < |r| - 1 && r[k - 1] == '=' && r[k] == '"' && r[|r| - 1] == '"'
    ensures r == r[..k - 1] + "=\"" + r[k + 1..|r| - 1] + "\""
  {
    var t := r[..k - 1] + "=\"" + r[k + 1..|r| - 1] + "\"";
    assert |t| == |r|;
    forall i | 0 <= i < |r| ensures t[i] == r[i] {
    }
  }

  /** Reading a rendered attribute gives back the name's text and the raw value. */
  lemma SplitRender(nameText: string, value: string)
    ensures SplitRendered(Render(nameText, value)) == Some((nameText, value))
  {
    RenderLayout(nameText, value);
    var r := Render(nameText, value);
    var k := |nameText| + 1;
    var body := r[..|r| - 1];
    assert body[k] == '"';
    assert LastQuote(body) == k by {
      LastQuoteIs(body, k);
    }
    assert r[..k - 1] == nameText;
    assert r[k + 1..|r| - 1] == r[|nameText| + 2..|r| - 1];
  }

  /** When `s[k]` is a quote and nothing after it is, LastQuote finds `k`. */
  lemma {:induction false} LastQuoteIs(s: string, k: nat)
    requires k < |s| && s[k] == '"'
    requires forall i :: k < i < |s| ==> s[i] != '"'
    ensures LastQuote(s) == k
    decreases |s|
  {
    if k < |s| - 1 {
      LastQuoteIs(s[..|s| - 1], k);
    }
  }

  /**
   * Two rendered attributes that read the same carry the same raw value: the
   * rendering loses nothing of the value, whatever the names are.
   */
  lemma RenderingDeterminesValue(a: Attribute, b: Attribute)
    requires a.ToString() == b.ToString()
    ensures a.value == b.value
  {
    SplitRender(a.name.ToString(), a.value);
    SplitRender(b.name.ToString(), b.value);
  }

  /**
   * Equality of borrowed attributes is field by field over the name and the
   * raw value; for attributes with the same name, comparing rendered forms
   * decides exactly the same thing, so no escaped form needs to be compared.
   */
  lemma AttributeEquality(a: Attribute, b: Attribute)
    ensures a == b <==> a.name == b.name && a.value == b.value
    ensures a.name == b.name ==> (a == b <==> a.ToString() == b.ToString())
  {
    if a.name == b.name && a.ToString() == b.ToString() {
      RenderingDeterminesValue(a, b);
    }
  }

  /** Equality of owned attributes is field by field, and borrowing preserves it both ways. */
  lemma OwnedAttributeEquality(a: OwnedAttribute, b: OwnedAttribute)
    ensures a == b <==> a.name == b.name && a.value == b.value
    ensures a == b <==> a.Borrow() == b.Borrow()
  {
  }

  /**
   * The borrowed view equals an independently built borrowed attribute with the
   * same parts, and renders exactly as the owned attribute does.
   */
  lemma BorrowConsistent(o: OwnedAttribute)
    ensures o.Borrow() == Attribute.New(o.name.Borrow(), o.value)
    ensures o.Borrow().ToString() == o.ToString()
  {
  }

  /**
   * When the name's text has no `"`, the only quotes of the rendered form are
   * the one opening the value and the one closing it.
   */
  lemma OnlyDelimitingQuotes(nameText: string, value: string)
    requires forall i :: 0 <= i < |nameText| ==> nameText[i] != '"'
    ensures var r := Render(nameText, value);
            forall i :: 0 <= i < |r| ==> (r[i] == '"' <==> i == |nameText| + 1 || i == |r| - 1)
  {
    RenderLayout(nameText, value);
    var r := Render(nameText, value);
    forall i | 0 <= i < |nameText| ensures r[i] != '"' {
      assert r[i] == r[..|nameText|][i];
    }
    assert r[|nameText|] == r[|nameText|..|nameText| + 2][0];
    assert r[|nameText| + 1] == r[|nameText|..|nameText| + 2][1];
  }

  /**
   * The rendering exercised by the attribute_display test, whose value is
   * "its value with " followed by the run "> & \" ' <" and " weird symbols":
   * text without markup around the run is copied through, and the run becomes
   * the five entity references, still separated by its spaces.
   */
  lemma AttributeDisplayExample(before: string, after: string)
    requires forall i :: 0 <= i < |before| ==> !IsMarkup(before[i])
    requires forall i :: 0 <= i < |after| ==> !IsMarkup(after[i])
    ensures Attribute.New(Name.Qualified("attribute", "urn:namespace", Some("n")),
                          before + (">" + " " + "&" + " " + "\"" + " " + "'" + " " + "<") + after).ToString()
            == "{urn:namespace}n:attribute=\"" + before + "&gt; &amp; &quot; &apos; &lt;" + after + "\""
  {
    var n := "{" + "urn:namespace" + "}" + "n" + ":" + "attribute";
    var run := ">" + " " + "&" + " " + "\"" + " " + "'" + " " + "<";
    var escRun := "&gt;" + " " + "&amp;" + " " + "&quot;" + " " + "&apos;" + " " + "&lt;";
    MarkupRun();
    EscapeInPlainContext(before, run, after);
    var name := Name.Qualified("attribute", "urn:namespace", Some("n"));
    NameText("attribute", "urn:namespace", "n");
    assert Attribute.New(name, before + run + after).ToString() == n + "=\"" + (before + escRun + after) + "\"";
    ConcatLiterals(n, before, escRun, after);
  }

  /** The attribute_display test itself, with its own value and expected output. */
  lemma AttributeDisplayTest()
    ensures Attribute.New(Name.Qualified("attribute", "urn:namespace", Some("n")),
                          "its value with > & \" ' < weird symbols").ToString()
            == "{urn:namespace}n:attribute=\"its value with &gt; &amp; &quot; &apos; &lt; weird symbols\""
  {
    AttributeDisplayExample("its value with ", " weird symbols");
    TestValueJoined();
    TestOutputHead();
    TestOutputRun();
    TestOutputTail();
    TestOutputClose();
  }

  /** The test's value is its plain head, the markup run and its plain tail. */
  lemma TestValueJoined()
    ensures "its value with " + (">" + " " + "&" + " " + "\"" + " " + "'" + " " + "<") + " weird symbols"
            == "its value with > & \" ' < weird symbols"
  {
    assert ">" + " " + "&" + " " + "\"" + " " + "'" + " " + "<" == "> & \" ' <";
    assert "its value with " + "> & \" ' <" == "its value with > & \" ' <";
    assert "its value with > & \" ' <" + " weird symbols" == "its value with > & \" ' < weird symbols";
  }

  /** The expected output, built up piece by piece: the name, `="` and the plain head of the value ... */
  lemma TestOutputHead()
    ensures "{urn:namespace}n:attribute=\"" + "its value with " == "{urn:namespace}n:attribute=\"its value with "
  {
  }

  /** ... then the escaped run ... */
  lemma TestOutputRun()
    ensures "{urn:namespace}n:attribute=\"its value with " + "&gt; &amp; &quot; &apos; &lt;"
            == "{urn:namespace}n:attribute=\"its value with &gt; &amp; &quot; &apos; &lt;"
  {
  }

  /** ... then the plain tail ... */
  lemma TestOutputTail()
    ensures "{urn:namespace}n:attribute=\"its value with &gt; &amp; &quot; &apos; &lt;" + " weird symbols"
            == "{urn:namespace}n:attribute=\"its value with &gt; &amp; &quot; &apos; &lt; weird symbols"
  {
  }

  /** ... and the closing quote. */
  lemma TestOutputClose()
    ensures "{urn:namespace}n:attribute=\"its value with &gt; &amp; &quot; &apos; &lt; weird symbols" + "\""
            == "{urn:namespace}n:attribute=\"its value with &gt; &amp; &quot; &apos; &lt; weird symbols\""
  {
  }

  /** Regrouping of the rendered test string. */
  lemma ConcatLiterals(n: string, before: string, escRun: string, after: string)
    requires n == "{" + "urn:namespace" + "}" + "n" + ":" + "attribute"
    requires escRun == "&gt;" + " " + "&amp;" + " " + "&quot;" + " " + "&apos;" + " " + "&lt;"
    ensures n + "=\"" + (before + escRun + after) + "\""
            == "{urn:namespace}n:attribute=\"" + before + "&gt; &amp; &quot; &apos; &lt;" + after + "\""
  {
    JoinedName();
    JoinedEntities();
    var head := n + "=\"";
    assert head + (before + escRun + after) + "\"" == head + before + escRun + after + "\"";
  }

  /** The pieces of the test's name text join up to it. */
  lemma JoinedName()
    ensures "{" + "urn:namespace" + "}" + "n" + ":" + "attribute" + "=\"" == "{urn:namespace}n:attribute=\""
  {
  }

  /** The pieces of the test's escaped run join up to it. */
  lemma JoinedEntities()
    ensures "&gt;" + " " + "&amp;" + " " + "&quot;" + " " + "&apos;" + " " + "&lt;" == "&gt; &amp; &quot; &apos; &lt;"
  {
  }

  /** The test's run of the five markup characters, separated by spaces, escapes entity by entity. */
  lemma MarkupRun()
    ensures Escape(">" + " " + "&" + " " + "\"" + " " + "'" + " " + "<")
            == "&gt;" + " " + "&amp;" + " " + "&quot;" + " " + "&apos;" + " " + "&lt;"
  {
    var sp := " ";
    EscapeSingle('>');
    EscapeSingle(' ');
    EscapeSingle('&');
    EscapeSingle('"');
    EscapeSingle('\'');
    EscapeSingle('<');
    EscapeAppend(">" + sp + "&" + sp + "\"" + sp + "'" + sp, "<");
    EscapeAppend(">" + sp + "&" + sp + "\"" + sp + "'", sp);
    EscapeAppend(">" + sp + "&" + sp + "\"" + sp, "'");
    EscapeAppend(">" + sp + "&" + sp + "\"", sp);
    EscapeAppend(">" + sp + "&" + sp, "\"");
    EscapeAppend(">" + sp + "&", sp);
    EscapeAppend(">" + sp, "&");
    EscapeAppend(">", sp);
  }

  /**
   * A value without markup, the empty value among them, is rendered as it is:
   * a local name `id` with value "" gives `id=""`, and one with `hello world`
   * gives `id="hello world"`.
   */
  lemma PlainValueRendering(localName: string, value: string)
    requires forall i :: 0 <= i < |value| ==> !IsMarkup(value[i])
    ensures Attribute.New(Name.Local(localName), value).ToString() == localName + "=\"" + value + "\""
  {
    EscapeIdentity(value);
  }
}
